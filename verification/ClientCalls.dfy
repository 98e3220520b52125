/** What clients see. A reference that takes every call at once, in the order of the
    calls: which sinks are registered, what each of them gets, who holds them. However
    the threads are scheduled, the pipeline does what the reference does for the calls
    made so far, as far as the worker has come. */
module ClientCalls {
  import opened Pipeline
  import opened PipelineLifecycle
  import opened PipelineRouting
  import opened PipelineTheorems

  // ---------------------------------------------------------------- the reference

  /** The sinks created so far; they are numbered in the order of their creation. */
  function Created(steps: seq<Step>): nat
  {
    if steps == [] then 0
    else Created(steps[..|steps| - 1]) + if steps[|steps| - 1].PushAdd? then 1 else 0
  }

  /** The sinks that are registered when every call takes effect at once. */
  function RegistryOf(steps: seq<Step>): seq<nat>
  {
    if steps == [] then []
    else
      var before := RegistryOf(steps[..|steps| - 1]);
      match steps[|steps| - 1]
      case PushAdd => before + [Created(steps[..|steps| - 1])]
      case PushRemove(s) => Without(before, s)
      case PushClear => []
      case PushFatal(_, _, _) => []
      case _ => before
  }

  /** What one call sends to a sink, given the registered ones. */
  function CallSends(step: Step, registered: seq<nat>, s: nat): seq<SinkJob>
  {
    match step
    case PushSave(m) => if s in registered then [Deliver(m)] else []
    case PushFatal(m, level, reason) =>
      if s in registered then [Deliver(FatalMessage(m, level, reason))] else []
    case PushHot(r, c) => if r == s then [Updated(c)] else []
    case _ => []
  }

  function SentTo(steps: seq<Step>, s: nat): seq<SinkJob>
  {
    if steps == [] then []
    else
      var before := steps[..|steps| - 1];
      SentTo(before, s) + CallSends(steps[|steps| - 1], RegistryOf(before), s)
  }

  // ---------------------------------------------------------------- the jobs of the calls

  function JobsFor(step: Step, created: nat): seq<WorkerJob>
  {
    match step
    case PushSave(m) => [Save(m)]
    case PushFatal(m, level, reason) => [Fatal(m, level, reason)]
    case PushAdd => [AddSink(created)]
    case PushRemove(s) => [RemoveSink(s)]
    case PushClear => [ClearSinks]
    case PushHot(s, c) => [HotUpdate(s, c)]
    case PushPoison => [Poison]
    case _ => []
  }

  function PushedBy(steps: seq<Step>): seq<WorkerJob>
  {
    if steps == [] then []
    else
      var before := steps[..|steps| - 1];
      PushedBy(before) + JobsFor(steps[|steps| - 1], Created(before))
  }

  lemma {:induction false} RunsSnoc(st: State, steps: seq<Step>, last: Step)
    requires Runs(st, steps + [last])
    ensures Runs(st, steps) && Enabled(Final(st, steps), last)
    ensures Final(st, steps + [last]) == Next(Final(st, steps), last)
    decreases |steps|
  {
    hide Next, Enabled;
    var all := steps + [last];
    if steps == [] {
      assert all[1..] == [] && all[0] == last;
      assert Runs(Next(st, last), []);
    } else {
      assert all[0] == steps[0] && all[1..] == steps[1..] + [last];
      RunsSnoc(Next(st, steps[0]), steps[1..], last);
    }
  }

  lemma StepPushes(st: State, step: Step)
    requires Enabled(st, step)
    ensures Next(st, step).pushed == st.pushed + JobsFor(step, |st.all|)
    ensures |Next(st, step).all| == |st.all| + if step.PushAdd? then 1 else 0
  {
    hide Forward, Without, FatalMessage, OwnedElsewhere, CapturedIds;
  }

  /** The worker's queue receives exactly the jobs of the calls. */
  lemma {:induction false} PushedAre(steps: seq<Step>)
    requires Runs(START, steps)
    ensures Final(START, steps).pushed == PushedBy(steps) && |Final(START, steps).all| == Created(steps)
  {
    hide Runs, Final, Next, Enabled;
    if steps == [] {
      assert Final(START, steps) == START by { Nothing(); }
    } else {
      var n := |steps| - 1;
      var before := steps[..n];
      assert steps == before + [steps[n]];
      RunsSnoc(START, before, steps[n]);
      PushedAre(before);
      StepPushes(Final(START, before), steps[n]);
    }
  }

  lemma Nothing()
    ensures Runs(START, []) && Final(START, []) == START
  {
  }

  /** On the jobs of the calls, the worker's rules give what the reference says. */
  lemma {:induction false} JobsAgree(steps: seq<Step>, s: nat)
    ensures Registered([], PushedBy(steps)) == RegistryOf(steps)
    ensures Trace([], PushedBy(steps), s) == SentTo(steps, s)
  {
    hide Registered, Trace, RegistryOf, SentTo, PushedBy, Without;
    if steps == [] {
      TraceNone([], s);
      NoCalls(s);
    } else {
      var n := |steps| - 1;
      var before := steps[..n];
      assert steps == before + [steps[n]];
      JobsAgree(before, s);
      RegistrySnoc(before, steps[n], s);
      PushedSnoc(before, steps[n]);
      OneCall(before, steps[n], s);
    }
  }

  lemma NoCalls(s: nat)
    ensures PushedBy([]) == [] && RegistryOf([]) == [] && SentTo([], s) == []
  {
  }

  lemma PushedSnoc(steps: seq<Step>, step: Step)
    ensures PushedBy(steps + [step]) == PushedBy(steps) + JobsFor(step, Created(steps))
  {
    assert (steps + [step])[..|steps|] == steps;
  }

  /** The job of a call does what the call does. */
  lemma OneCall(before: seq<Step>, step: Step, s: nat)
    ensures var jobs, more := PushedBy(before), JobsFor(step, Created(before));
            var registered := Registered([], jobs);
            && Trace([], jobs + more, s) == Trace([], jobs, s) + CallSends(step, registered, s)
            && Registered([], jobs + more)
               == match step
                  case PushAdd => registered + [Created(before)]
                  case PushRemove(r) => Without(registered, r)
                  case PushClear => []
                  case PushFatal(_, _, _) => []
                  case _ => registered
  {
    hide Registered, Trace, PushedBy, Without, FatalMessage;
    var jobs, more := PushedBy(before), JobsFor(step, Created(before));
    if more == [] {
      assert jobs + more == jobs;
      assert Trace([], jobs, s) + [] == Trace([], jobs, s);
    } else {
      assert more == [more[0]];
      TraceSnoc([], jobs, more[0], s);
    }
  }

  /** Some of the jobs, from the first on, are the jobs of some of the calls. */
  lemma {:induction false} CallsOf(steps: seq<Step>, n: nat) returns (k: nat)
    requires n <= |PushedBy(steps)|
    ensures k <= |steps| && PushedBy(steps[..k]) == PushedBy(steps)[..n]
  {
    if n == |PushedBy(steps)| {
      k := |steps|;
      assert steps[..k] == steps && PushedBy(steps)[..n] == PushedBy(steps);
    } else {
      var before := steps[..|steps| - 1];
      assert n <= |PushedBy(before)|;
      k := CallsOf(before, n);
      assert before[..k] == steps[..k];
      assert PushedBy(before)[..n] == PushedBy(steps)[..n];
    }
  }

  // ---------------------------------------------------------------- what clients see

  ghost predicate AsAfter(st: State, calls: seq<Step>)
  {
    && (!Dismantled(st) ==> st.sinks == RegistryOf(calls))
    && forall s: nat | s < |st.all| :: Routed(st.all[s].Jobs()) == SentTo(calls, s)
  }

  /** In every state of every run, registration and what has come through to the sinks
      are those of the reference after some of the calls, from the first on. */
  lemma SequentialView(steps: seq<Step>) returns (k: nat)
    requires Runs(START, steps)
    ensures k <= |steps| && AsAfter(Final(START, steps), steps[..k])
    ensures PushedBy(steps[..k]) == Final(START, steps).executed
  {
    hide Runs, Final, Registered, Trace, Routed, RegistryOf, SentTo;
    var st := Final(START, steps);
    assert Reachable(st);
    PushedAre(steps);
    Always(st);
    ExecutedFirst(st);
    k := CallsOf(steps, |st.executed|);
    Agreement(st, steps[..k]);
  }

  lemma ExecutedFirst(st: State)
    requires History(st)
    ensures |st.executed| <= |st.pushed| && st.pushed[..|st.executed|] == st.executed
    ensures st.queue == [] && !Dismantled(st) ==> st.executed == st.pushed
  {
  }

  lemma Agreement(st: State, calls: seq<Step>)
    requires Routing(st) && PushedBy(calls) == st.executed
    ensures AsAfter(st, calls)
  {
    hide Registered, Trace, RegistryOf, SentTo, Routed;
    JobsAgree(calls, 0);
    forall s: nat | s < |st.all| ensures Routed(st.all[s].Jobs()) == SentTo(calls, s) {
      JobsAgree(calls, s);
      assert Routed(JobsOf(st, s)) == Trace([], st.executed, s);
    }
  }

  /** Whenever the worker's queue is empty, they are those of the reference after all of
      the calls. */
  lemma IdleView(steps: seq<Step>)
    requires Runs(START, steps) && Final(START, steps).queue == [] && !Dismantled(Final(START, steps))
    ensures AsAfter(Final(START, steps), steps)
  {
    hide Runs, Final, Registered, Trace, Routed, RegistryOf, SentTo;
    var st := Final(START, steps);
    assert Reachable(st);
    PushedAre(steps);
    Always(st);
    ExecutedFirst(st);
    Agreement(st, steps);
  }

  // ---------------------------------------------------------------- single calls

  lemma RegistrySnoc(steps: seq<Step>, step: Step, s: nat)
    ensures SentTo(steps + [step], s) == SentTo(steps, s) + CallSends(step, RegistryOf(steps), s)
    ensures RegistryOf(steps + [step])
         == match step
            case PushAdd => RegistryOf(steps) + [Created(steps)]
            case PushRemove(r) => Without(RegistryOf(steps), r)
            case PushClear => []
            case PushFatal(_, _, _) => []
            case _ => RegistryOf(steps)
    ensures Created(steps + [step]) == Created(steps) + if step.PushAdd? then 1 else 0
  {
    assert (steps + [step])[..|steps|] == steps;
  }

  /** Removing a sink removes that one and no other. */
  lemma RemoveOnlyOne(steps: seq<Step>, s: nat, r: nat)
    ensures r in RegistryOf(steps + [PushRemove(s)]) <==> r in RegistryOf(steps) && r != s
  {
    hide RegistryOf, Without;
    RegistrySnoc(steps, PushRemove(s), 0);
    WithoutExact(RegistryOf(steps), s, r);
  }

  /** Clearing, and a fatal message, remove all; adding adds the new one and keeps the
      others; no other call changes the list. */
  lemma OtherCalls(steps: seq<Step>, step: Step, r: nat)
    ensures step.PushClear? || step.PushFatal? ==> RegistryOf(steps + [step]) == []
    ensures step.PushAdd? ==>
              (r in RegistryOf(steps + [step]) <==> r in RegistryOf(steps) || r == Created(steps))
    ensures !(step.PushClear? || step.PushFatal? || step.PushAdd? || step.PushRemove?) ==>
              RegistryOf(steps + [step]) == RegistryOf(steps)
  {
    hide RegistryOf, Without;
    RegistrySnoc(steps, step, 0);
  }

  predicate Drops(step: Step, s: nat)
  {
    step == PushRemove(s) || step.PushClear? || step.PushFatal?
  }

  /** All messages and hot updates of some calls, as a sink gets them that stays
      registered. */
  function Everything(steps: seq<Step>, s: nat): seq<SinkJob>
  {
    if steps == [] then []
    else Everything(steps[..|steps| - 1], s) + CallSends(steps[|steps| - 1], [s], s)
  }

  /** A registered sink stays registered, and gets every later message, as long as no
      call removes it, clears, or is fatal. */
  lemma {:induction false} StaysRegistered(before: seq<Step>, more: seq<Step>, s: nat)
    requires s in RegistryOf(before)
    requires forall i | 0 <= i < |more| :: !Drops(more[i], s)
    ensures s in RegistryOf(before + more)
    ensures SentTo(before + more, s) == SentTo(before, s) + Everything(more, s)
  {
    hide RegistryOf, SentTo, Without, FatalMessage;
    if more == [] {
      assert before + more == before;
    } else {
      var n := |more| - 1;
      StaysRegistered(before, more[..n], s);
      var steps := before + more[..n];
      assert before + more == steps + [more[n]];
      RegistrySnoc(steps, more[n], s);
      if more[n].PushRemove? { WithoutExact(RegistryOf(steps), more[n].s, s); }
      assert !Drops(more[n], s);
    }
  }

  // ---------------------------------------------------------------- handles, direct calls, turns

  function Count(steps: seq<Step>, step: Step): nat
  {
    if steps == [] then 0
    else Count(steps[..|steps| - 1], step) + if steps[|steps| - 1] == step then 1 else 0
  }

  /** The direct calls among the jobs of a sink, and those that were made. */
  function Directs(jobs: seq<SinkJob>): seq<nat>
  {
    if jobs == [] then []
    else
      var j := jobs[|jobs| - 1];
      Directs(jobs[..|jobs| - 1]) + if j.Direct? then [j.call] else []
  }

  function CalledOn(steps: seq<Step>, s: nat): seq<nat>
  {
    if steps == [] then []
    else
      var step := steps[|steps| - 1];
      CalledOn(steps[..|steps| - 1], s) + if step.CallSink? && step.s == s then [step.c] else []
  }

  lemma DirectsSnoc(jobs: seq<SinkJob>, j: SinkJob)
    ensures Directs(jobs + [j]) == Directs(jobs) + if j.Direct? then [j.call] else []
  {
    assert (jobs + [j])[..|jobs|] == jobs;
  }

  /** What one step does to one sink besides routing. */
  lemma SinkStep(st: State, step: Step, s: nat)
    requires Lifecycle(st) && Enabled(st, step) && s < |st.all|
    ensures s < |Next(st, step).all|
    ensures var k, k' := st.all[s], Next(st, step).all[s];
            && k'.handles == k.handles + (if step == TakeHandle(s) then 1 else 0)
                             - (if step == DropHandle(s) then 1 else 0)
            && |k'.ran| == |k.ran| + (if step == SinkRun(s) then 1 else 0)
            && Directs(k'.Jobs()) == Directs(k.Jobs()) + if step.CallSink? && step.s == s then [step.c] else []
  {
    hide Directs, RunJob, OwnedElsewhere, CapturedIds, Lifecycle;
    var k := st.all[s];
    if step.WorkerRun? {
      RunStep(st, s);
    } else {
      var k' := Next(st, step).all[s];
      if step == SinkRun(s) {
        assert k.queue == [k.queue[0]] + k.queue[1..];
        assert k'.Jobs() == k.Jobs();
      } else if k'.queue != k.queue {
        var j := k'.queue[|k.queue|];
        assert k'.Jobs() == k.Jobs() + [j];
        DirectsSnoc(k.Jobs(), j);
      } else {
        assert k'.Jobs() == k.Jobs();
      }
    }
  }

  lemma RunStep(st: State, s: nat)
    requires Lifecycle(st) && st.phase.Running? && st.queue != [] && s < |st.all|
    ensures s < |RunJob(st).all|
    ensures var k, k' := st.all[s], RunJob(st).all[s];
            k'.handles == k.handles && k'.ran == k.ran && Directs(k'.Jobs()) == Directs(k.Jobs())
  {
    hide Directs, Forward, Without, FatalMessage, Lifecycle;
    Ordering(st);
    var k, k' := st.all[s], RunJob(st).all[s];
    match st.queue[0] {
      case Save(m) => ForwardExact(st.all, st.sinks, Deliver(m), s);
      case Fatal(m, l, r) => ForwardExact(st.all, st.sinks, Deliver(FatalMessage(m, l, r)), s);
      case _ =>
    }
    if k'.queue != k.queue {
      var j := k'.queue[|k.queue|];
      assert k'.Jobs() == k.Jobs() + [j];
      DirectsSnoc(k.Jobs(), j);
    }
  }

  lemma Ordering(st: State)
    requires Lifecycle(st)
    ensures Increasing(st.sinks)
  {
  }

  /** In every state of every run: clients hold a sink as often as they took it, and the
      one who created it did, less as often as they let go; its thread has run one job
      at each of its turns; and the direct calls in it are those made, in order. */
  lemma {:induction false} SinkView(steps: seq<Step>, s: nat)
    requires Runs(START, steps) && s < |Final(START, steps).all|
    ensures var k := Final(START, steps).all[s];
            && k.handles == 1 + Count(steps, TakeHandle(s)) - Count(steps, DropHandle(s))
            && |k.ran| == Count(steps, SinkRun(s))
            && Directs(k.Jobs()) == CalledOn(steps, s)
  {
    hide Runs, Final, Next, Enabled, Directs, Lifecycle, History, Routing;
    if steps == [] {
      Nothing();
    } else {
      var n := |steps| - 1;
      var before := steps[..n];
      assert steps == before + [steps[n]];
      RunsSnoc(START, before, steps[n]);
      var st := Final(START, before);
      assert Reachable(st);
      Always(st);
      if s < |st.all| {
        SinkView(before, s);
        SinkStep(st, steps[n], s);
      } else {
        StepPushes(st, steps[n]);
        NewSink(st);
        NotYet(before, s);
      }
    }
  }

  lemma NewSink(st: State)
    requires Enabled(st, PushAdd)
    ensures |Next(st, PushAdd).all| == |st.all| + 1 && Next(st, PushAdd).all[|st.all|] == Sink([], [], 1, Open)
    ensures Directs(Sink([], [], 1, Open).Jobs()) == []
  {
  }

  /** Nothing happened to a sink before it was there. */
  lemma {:induction false} NotYet(steps: seq<Step>, s: nat)
    requires Runs(START, steps) && s >= |Final(START, steps).all|
    ensures Count(steps, TakeHandle(s)) == Count(steps, DropHandle(s)) == Count(steps, SinkRun(s)) == 0
    ensures CalledOn(steps, s) == []
  {
    hide Runs, Final, Next;
    if steps != [] {
      var n := |steps| - 1;
      var before := steps[..n];
      assert steps == before + [steps[n]];
      RunsSnoc(START, before, steps[n]);
      StepPushes(Final(START, before), steps[n]);
      NotYet(before, s);
    }
  }
}
