/** Ownership and destruction of sinks: whatever the interleaving, a sink is
    destroyed exactly when its last owner lets go, once, and its poison job is the
    last one it ever gets. */
module PipelineLifecycle {
  import opened Pipeline

  predicate Head(st: State, s: nat) { Todo(st) != [] && Todo(st)[0] == s }

  /** The poison job is there once, behind everything else. */
  predicate EndsWithStop(jobs: seq<SinkJob>)
  {
    jobs != [] && jobs[|jobs| - 1] == Stop && Stop !in jobs[..|jobs| - 1]
  }

  /** How the life of a sink follows from its owners. */
  predicate Sound(k: Sink, elsewhere: bool, head: bool)
  {
    && (k.life.Open? ==> Stop !in k.Jobs() && (elsewhere || head))
    && (!k.life.Open? ==> EndsWithStop(k.Jobs()) && !elsewhere)
    && (k.life.ClosedByWorker? ==> k.Stopped() || head)
  }

  predicate Below(sinks: seq<nat>, n: nat) { forall s <- sinks :: s < n }

  predicate QueueBelow(queue: seq<WorkerJob>, n: nat)
  {
    forall j <- queue :: (j.AddSink? || j.HotUpdate?) ==> j.s < n
  }

  /** Every reference to a sink is to one that exists. */
  predicate Known(st: State)
  {
    Below(st.sinks, |st.all|) && Below(Todo(st), |st.all|) && QueueBelow(st.queue, |st.all|)
  }

  predicate Increasing(sinks: seq<nat>)
  {
    forall a, b | 0 <= a < b < |sinks| :: sinks[a] < sinks[b]
  }

  /** Each sink is added once: the sinks of the list are distinct, and the ones
      waiting to be added come after them. */
  predicate Ordered(sinks: seq<nat>, queue: seq<WorkerJob>)
  {
    && Increasing(sinks)
    && (forall a, k | 0 <= a < |sinks| && 0 <= k < |queue| && queue[k].AddSink? :: sinks[a] < queue[k].s)
    && (forall k, l | 0 <= k < l < |queue| && queue[k].AddSink? && queue[l].AddSink? ::
          queue[k].s < queue[l].s)
  }

  predicate Lifecycle(st: State)
  {
    && Known(st)
    && Ordered(st.sinks, st.queue)
    && (forall s: nat | s < |st.all| :: Sound(st.all[s], OwnedElsewhere(st, s), Head(st, s)))
  }

  lemma CapturedByNext(queue: seq<WorkerJob>, s: nat)
    requires queue != []
    ensures Captured(queue, s) <==> Captures(queue[0], s) || Captured(queue[1..], s)
  {
    assert queue == [queue[0]] + queue[1..];
    forall j ensures j in queue <==> j == queue[0] || j in queue[1..] {}
  }

  lemma CapturedBySnoc(queue: seq<WorkerJob>, j: WorkerJob, s: nat)
    ensures Captured(queue + [j], s) <==> Captures(j, s) || Captured(queue, s)
  {
    forall i ensures i in queue + [j] <==> i == j || i in queue {}
    if Captures(j, s) { assert j in queue + [j]; }
  }

  lemma {:induction false} CapturedIdsExact(queue: seq<WorkerJob>, s: nat)
    ensures s in CapturedIds(queue) <==> Captured(queue, s)
  {
    if queue != [] {
      var n := |queue| - 1;
      CapturedIdsExact(queue[..n], s);
      CapturedBySnoc(queue[..n], queue[n], s);
      assert queue == queue[..n] + [queue[n]];
    }
  }

  lemma {:induction false} WithoutExact(sinks: seq<nat>, s: nat, t: nat)
    ensures t in Without(sinks, s) <==> t in sinks && t != s
  {
    if sinks != [] {
      WithoutExact(sinks[..|sinks| - 1], s, t);
      assert sinks == sinks[..|sinks| - 1] + [sinks[|sinks| - 1]];
    }
  }

  /** Forwarding adds one copy to each sink of the list and leaves the others. */
  lemma {:induction false} ForwardExact(all: seq<Sink>, sinks: seq<nat>, j: SinkJob, s: nat)
    requires s < |all|
    requires Increasing(sinks)
    ensures Forward(all, sinks, j)[s]
            == if s in sinks then all[s].(queue := all[s].queue + [j]) else all[s]
  {
    if sinks != [] {
      var n := |sinks| - 1;
      ForwardExact(all, sinks[..n], j, s);
      assert sinks == sinks[..n] + [sinks[n]];
      assert sinks[n] !in sinks[..n];
    }
  }

  lemma {:induction false} WithoutIncreasing(sinks: seq<nat>, s: nat)
    requires Increasing(sinks)
    ensures Increasing(Without(sinks, s))
  {
    if sinks != [] {
      var n := |sinks| - 1;
      WithoutIncreasing(sinks[..n], s);
      var front := Without(sinks[..n], s);
      forall a | 0 <= a < |front| ensures front[a] < sinks[n] {
        assert front[a] in front;
        WithoutExact(sinks[..n], s, front[a]);
      }
    }
  }

  lemma OrderedPush(sinks: seq<nat>, queue: seq<WorkerJob>, j: WorkerJob)
    requires Ordered(sinks, queue)
    requires j.AddSink? ==> forall a | 0 <= a < |sinks| :: sinks[a] < j.s
    requires j.AddSink? ==> forall k | 0 <= k < |queue| && queue[k].AddSink? :: queue[k].s < j.s
    ensures Ordered(sinks, queue + [j])
  {
  }

  lemma OrderedPop(sinks: seq<nat>, queue: seq<WorkerJob>, s: nat)
    requires Ordered(sinks, queue) && queue != []
    ensures Ordered(sinks, queue[1..])
    ensures Ordered(Without(sinks, s), queue[1..])
    ensures queue[0].AddSink? ==> Ordered(sinks + [queue[0].s], queue[1..])
  {
    WithoutIncreasing(sinks, s);
    var w := Without(sinks, s);
    forall a, k | 0 <= a < |w| && 0 <= k < |queue| && queue[k].AddSink? ensures w[a] < queue[k].s {
      assert w[a] in w;
      WithoutExact(sinks, s, w[a]);
    }
    var rest := queue[1..];
    assert forall k | 0 <= k < |rest| :: rest[k] == queue[k + 1];
  }

  lemma OrderedNone(queue: seq<WorkerJob>)
    requires exists sinks :: Ordered(sinks, queue)
    ensures Ordered([], queue)
  {
  }

  /** Adding to the back of the worker's queue changes no sink. */
  lemma PushKeeps(st: State, j: WorkerJob)
    requires Lifecycle(st) && !j.AddSink?
    requires j.HotUpdate? ==> j.s < |st.all| && st.all[j.s].handles > 0
    ensures Lifecycle(PushJob(st, j))
  {
    var t := PushJob(st, j);
    assert Todo(t) == Todo(st);
    OrderedPush(st.sinks, st.queue, j);
    forall s: nat | s < |t.all| ensures Sound(t.all[s], OwnedElsewhere(t, s), Head(t, s)) {
      CapturedBySnoc(st.queue, j, s);
    }
  }

  lemma PushAddKeeps(st: State)
    requires Lifecycle(st) && ClientsActive(st)
    ensures Lifecycle(Next(st, PushAdd))
  {
    var t := Next(st, PushAdd);
    var j := AddSink(|st.all|);
    assert forall a | 0 <= a < |st.sinks| :: st.sinks[a] in st.sinks;
    assert forall k | 0 <= k < |st.queue| :: st.queue[k] in st.queue;
    OrderedPush(st.sinks, st.queue, j);
    assert Todo(t) == Todo(st);
    forall s: nat | s < |t.all| ensures Sound(t.all[s], OwnedElsewhere(t, s), Head(t, s)) {
      CapturedBySnoc(st.queue, j, s);
      if s < |st.all| {
        assert t.all[s] == st.all[s];
      }
    }
  }

  lemma Member(list: seq<nat>, s: nat)
    ensures s in list <==> list != [] && (list[0] == s || s in list[1..])
  {
    if list != [] { assert list == [list[0]] + list[1..]; }
  }

  lemma WithoutBelow(sinks: seq<nat>, s: nat, n: nat)
    requires Below(sinks, n)
    ensures Below(Without(sinks, s), n)
  {
    forall t <- Without(sinks, s) ensures t in sinks { WithoutExact(sinks, s, t); }
  }

  lemma BelowSnoc(sinks: seq<nat>, s: nat, n: nat)
    requires Below(sinks, n) && s < n
    ensures Below(sinks + [s], n)
  {
  }

  lemma RunJobKnown(st: State)
    requires Known(st) && Ordered(st.sinks, st.queue) && st.queue != []
    ensures Known(RunJob(st)) && Ordered(RunJob(st).sinks, RunJob(st).queue)
  {
    hide Ordered, Without, Forward, FatalMessage, Below, Send;
    var t := RunJob(st);
    var j := st.queue[0];
    assert j in st.queue;
    assert QueueBelow(t.queue, |st.all|) by { assert forall i <- t.queue :: i in st.queue; }
    OrderedPop(st.sinks, st.queue, if j.RemoveSink? then j.s else 0);
    OrderedNone(t.queue);
    BelowFew(|st.all|);
    match j
    case AddSink(s) => BelowSnoc(st.sinks, s, |st.all|);
    case RemoveSink(s) => WithoutBelow(st.sinks, s, |st.all|);
    case _ =>
  }

  lemma BelowFew(n: nat)
    ensures Below([], n)
    ensures forall s: nat | s < n :: Below([s], n)
  {
  }

  /** Forwarding a message touches only sinks of the list, which are open. */
  lemma ForwardSound(st: State, j: SinkJob, s: nat)
    requires Lifecycle(st) && s < |st.all| && j != Stop
    ensures Forward(st.all, st.sinks, j)[s].handles == st.all[s].handles
    ensures Sound(Forward(st.all, st.sinks, j)[s], OwnedElsewhere(st, s), Head(st, s))
  {
    hide Forward;
    assert Sound(st.all[s], OwnedElsewhere(st, s), Head(st, s));
    ForwardExact(st.all, st.sinks, j, s);
    if s in st.sinks { assert Forward(st.all, st.sinks, j)[s].Jobs() == st.all[s].Jobs() + [j]; }
  }

  lemma RunJobSound(st: State, s: nat)
    requires Lifecycle(st) && st.phase.Running? && st.queue != [] && s < |st.all|
    ensures |RunJob(st).all| == |st.all|
    ensures Sound(RunJob(st).all[s], OwnedElsewhere(RunJob(st), s), Head(RunJob(st), s))
  {
    hide Forward, Without;
    var t := RunJob(st);
    var j := st.queue[0];
    CapturedByNext(st.queue, s);
    match j
    case Save(m) => ForwardSound(st, Deliver(m), s);
    case Fatal(m, l, r) =>
      ForwardSound(st, Deliver(FatalMessage(m, l, r)), s);
      Member(st.sinks, s);
    case RemoveSink(r) =>
      assert Sound(st.all[s], OwnedElsewhere(st, s), Head(st, s));
      WithoutExact(st.sinks, r, s);
    case _ => assert Sound(st.all[s], OwnedElsewhere(st, s), Head(st, s));
  }

  lemma RunJobKeeps(st: State)
    requires Lifecycle(st) && st.phase.Running? && st.queue != []
    ensures Lifecycle(RunJob(st))
  {
    RunJobKnown(st);
    forall s: nat | s < |st.all|
      ensures Sound(RunJob(st).all[s], OwnedElsewhere(RunJob(st), s), Head(RunJob(st), s)) {
      RunJobSound(st, s);
    }
  }

  lemma CloseNextKeeps(st: State)
    requires Lifecycle(st) && CanClose(st)
    ensures Lifecycle(CloseNext(st))
  {
    var t := CloseNext(st);
    var todo := st.phase.todo;
    assert todo != [] ==> todo == [todo[0]] + todo[1..];
    forall s <- Todo(t) ensures s in Todo(st) {}
    forall s: nat | s < |t.all| ensures Sound(t.all[s], OwnedElsewhere(t, s), Head(t, s)) {
      assert Sound(st.all[s], OwnedElsewhere(st, s), Head(st, s));
      if todo != [] { Member(todo[1..], s); }
      var k, k' := st.all[s], t.all[s];
      if k' != k {
        assert k'.Jobs() == k.Jobs() + [Stop];
      }
    }
  }

  lemma DestroyKeeps(st: State)
    requires Lifecycle(st) && st.phase.Stopped?
    ensures Lifecycle(Next(st, DestroyWorker))
  {
    var t := Next(st, DestroyWorker);
    forall s: nat ensures s in Todo(t) <==> s in st.sinks || Captured(st.queue, s) {
      CapturedIdsExact(st.queue, s);
    }
    forall s: nat | s < |t.all| ensures Sound(t.all[s], OwnedElsewhere(t, s), Head(t, s)) {
      assert Sound(st.all[s], OwnedElsewhere(st, s), Head(st, s));
      Member(Todo(t), s);
    }
  }

  /** A step that touches one sink only, and none of the worker's references. */
  lemma OneSinkKeeps(st: State, t: State, s: nat)
    requires Lifecycle(st) && s < |st.all| == |t.all|
    requires t == st.(all := st.all[s := t.all[s]])
    requires Sound(t.all[s], OwnedElsewhere(t, s), Head(t, s))
    ensures Lifecycle(t)
  {
    assert Todo(t) == Todo(st);
    forall r: nat | r < |t.all| ensures Sound(t.all[r], OwnedElsewhere(t, r), Head(t, r)) {
      assert Sound(st.all[r], OwnedElsewhere(st, r), Head(st, r));
    }
  }

  lemma SinkRunKeeps(st: State, s: nat)
    requires Lifecycle(st) && Enabled(st, SinkRun(s))
    ensures Lifecycle(Next(st, SinkRun(s)))
    ensures Next(st, SinkRun(s)).all[s].Jobs() == st.all[s].Jobs()
  {
    var k, k' := st.all[s], Next(st, SinkRun(s)).all[s];
    assert Sound(k, OwnedElsewhere(st, s), Head(st, s));
    assert k.queue == [k.queue[0]] + k.queue[1..];
    assert k'.Jobs() == k.Jobs();
    OneSinkKeeps(st, Next(st, SinkRun(s)), s);
  }

  lemma CallKeeps(st: State, s: nat, c: nat)
    requires Lifecycle(st) && Enabled(st, CallSink(s, c))
    ensures Lifecycle(Next(st, CallSink(s, c)))
  {
    var t := Next(st, CallSink(s, c));
    assert Sound(st.all[s], OwnedElsewhere(st, s), Head(st, s));
    assert t.all[s].Jobs() == st.all[s].Jobs() + [Direct(c)];
    OneSinkKeeps(st, t, s);
  }

  lemma TakeKeeps(st: State, s: nat)
    requires Lifecycle(st) && Enabled(st, TakeHandle(s))
    ensures Lifecycle(Next(st, TakeHandle(s)))
  {
    assert Sound(st.all[s], OwnedElsewhere(st, s), Head(st, s));
    assert Next(st, TakeHandle(s)).all[s].Jobs() == st.all[s].Jobs();
    OneSinkKeeps(st, Next(st, TakeHandle(s)), s);
  }

  lemma DropKeeps(st: State, s: nat)
    requires Lifecycle(st) && s < |st.all| && st.all[s].handles > 0
    ensures Lifecycle(DropOne(st, s))
  {
    var t := DropOne(st, s);
    assert Sound(st.all[s], OwnedElsewhere(st, s), Head(st, s));
    Member(Todo(st), s);
    if t.all[s].life == st.all[s].life { assert t.all[s].Jobs() == st.all[s].Jobs(); }
    else { assert t.all[s].Jobs() == st.all[s].Jobs() + [Stop]; }
    OneSinkKeeps(st, t, s);
  }

  /** Every step keeps the discipline. */
  lemma LifecycleStep(st: State, step: Step)
    requires Lifecycle(st) && Enabled(st, step)
    ensures Lifecycle(Next(st, step))
  {
    hide Lifecycle, RunJob, CloseNext, CanClose;
    match step
    case PushSave(m) => PushKeeps(st, Save(m));
    case PushFatal(m, l, r) => PushKeeps(st, Fatal(m, l, r));
    case PushAdd => PushAddKeeps(st);
    case PushRemove(s) => PushKeeps(st, RemoveSink(s));
    case PushClear => PushKeeps(st, ClearSinks);
    case PushHot(s, c) => PushKeeps(st, HotUpdate(s, c));
    case PushPoison => PushKeeps(st, Poison);
    case WorkerRun => RunJobKeeps(st);
    case WorkerClose => CloseNextKeeps(st);
    case DestroyWorker => DestroyKeeps(st);
    case SinkRun(s) => SinkRunKeeps(st, s);
    case CallSink(s, c) => CallKeeps(st, s, c);
    case TakeHandle(s) => TakeKeeps(st, s);
    case DropHandle(s) => DropKeeps(st, s);
  }

  /** Over a whole run. */
  lemma {:induction false} LifecycleRun(st: State, steps: seq<Step>)
    requires Lifecycle(st) && Runs(st, steps)
    ensures Lifecycle(Final(st, steps))
    decreases |steps|
  {
    if steps != [] {
      LifecycleStep(st, steps[0]);
      LifecycleRun(Next(st, steps[0]), steps[1..]);
    }
  }
}
