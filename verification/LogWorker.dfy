/** The objects behind the step system: sinks with their queues, and the worker
    that owns some of them. Each method is one atomic action of one thread; any
    sequence of calls is a run of the step system. */
module LogWorker {
  import opened Pipeline
  import opened PipelineLifecycle
  import opened PipelineRouting
  import opened PipelineTheorems

  class SinkThread {
    var queue: seq<SinkJob>
    var ran: seq<SinkJob>
    var handles: nat
    var life: Life

    constructor ()
      ensures View() == Sink([], [], 1, Open)
    {
      queue, ran, handles, life := [], [], 1, Open;
    }

    function View(): Sink
      reads this
    {
      Sink(queue, ran, handles, life)
    }

    method Push(j: SinkJob)
      modifies this
      ensures View() == old(View()).(queue := old(queue) + [j])
    {
      queue := queue + [j];
    }

    /** The destructor begins: the poison job goes to the end of the queue. */
    method Destroy(closer: Life)
      modifies this
      ensures View() == old(View()).(queue := old(queue) + [Stop], life := closer)
    {
      Push(Stop);
      life := closer;
    }

    method RunNext()
      requires queue != []
      modifies this
      ensures View() == old(View()).(queue := old(queue)[1..], ran := old(ran) + [old(queue)[0]])
    {
      ran := ran + [queue[0]];
      queue := queue[1..];
    }
  }

  /** The abstract sinks behind some objects. */
  ghost function Views(objects: seq<SinkThread>): (r: seq<Sink>)
    reads objects
    ensures |r| == |objects|
    ensures forall i | 0 <= i < |objects| :: r[i] == objects[i].View()
  {
    if objects == [] then []
    else Views(objects[..|objects| - 1]) + [objects[|objects| - 1].View()]
  }

  lemma ViewsSnoc(objects: seq<SinkThread>, k: SinkThread)
    ensures Views(objects + [k]) == Views(objects) + [k.View()]
  {
    assert (objects + [k])[..|objects|] == objects;
  }

  class Worker {
    var queue: seq<WorkerJob>
    var sinks: seq<nat>
    var all: seq<SinkThread>
    var phase: Phase
    ghost var pushed: seq<WorkerJob>
    ghost var executed: seq<WorkerJob>

    constructor ()
      ensures Valid() && View() == START
    {
      queue, sinks, all, phase := [], [], [], Running;
      pushed, executed := [], [];
    }

    ghost predicate Distinct()
      reads this
    {
      forall i, k | 0 <= i < k < |all| :: all[i] != all[k]
    }

    ghost function View(): State
      reads this, all
    {
      State(pushed, queue, executed, sinks, Views(all), phase)
    }

    /** What every step keeps. */
    ghost predicate Valid()
      reads this, all
    {
      Distinct() && Lifecycle(View()) && History(View()) && Routing(View())
    }

    method Enqueue(j: WorkerJob)
      modifies this
      ensures all == old(all) && View() == PushJob(old(View()), j)
    {
      queue := queue + [j];
      pushed := pushed + [j];
    }

    /** A job for one sink. */
    method SendTo(s: nat, j: SinkJob)
      requires Distinct() && s < |all|
      modifies all[s]
      ensures Views(all) == Send(old(Views(all)), s, j)
    {
      all[s].Push(j);
      assert Views(all) == Send(old(Views(all)), s, j);
    }

    /** The loop of bgSave and bgFatal: one copy for each registered sink. */
    method SendToSinks(m: Message)
      requires Distinct() && Below(sinks, |all|)
      modifies all
      ensures Views(all) == Forward(old(Views(all)), sinks, Deliver(m))
    {
      for i := 0 to |sinks|
        invariant Views(all) == Forward(old(Views(all)), sinks[..i], Deliver(m))
      {
        assert sinks[i] in sinks;
        SendTo(sinks[i], Deliver(m));
        assert sinks[..i + 1][..i] == sinks[..i];
      }
      assert sinks[..|sinks|] == sinks;
    }

    /** The erase-remove of removeSink: keeps the others in their order. */
    method EraseSink(s: nat)
      modifies this`sinks
      ensures sinks == Without(old(sinks), s)
    {
      var kept: seq<nat> := [];
      for i := 0 to |sinks|
        invariant sinks == old(sinks) && kept == Without(sinks[..i], s)
      {
        assert sinks[..i + 1][..i] == sinks[..i];
        if sinks[i] != s { kept := kept + [sinks[i]]; }
      }
      assert sinks[..|sinks|] == sinks;
      sinks := kept;
    }

    /** The worker thread takes its next job and runs it. */
    method RunNext()
      requires Distinct() && queue != [] && Below(sinks, |all|)
      requires queue[0].HotUpdate? ==> queue[0].s < |all|
      modifies this, all
      ensures all == old(all) && View() == RunJob(old(View()))
    {
      hide Views, Forward, Without, Send, FatalMessage, Below;
      var j := queue[0];
      queue := queue[1..];
      executed := executed + [j];
      match j
      case Save(m) => SendToSinks(m);
      case Fatal(m, level, reason) =>
        SendToSinks(FatalMessage(m, level, reason));
        phase := Closing(sinks, Exit);
        sinks := [];
      case AddSink(s) => sinks := sinks + [s];
      case RemoveSink(s) =>
        if s < |all| && all[s].life.Open? {
          EraseSink(s);
          phase := Closing([s], Resume);
        }
      case ClearSinks =>
        phase := Closing(sinks, Resume);
        sinks := [];
      case HotUpdate(s, c) =>
        SendTo(s, Updated(c));
        phase := Closing([s], Resume);
      case Poison => phase := Stopped;
    }

    /** Somebody besides the reference being dropped owns the sink. */
    method HasOtherOwner(s: nat) returns (owned: bool)
      ensures owned == OwnedElsewhere(View(), s)
    {
      var todo := if phase.Closing? then phase.todo else [];
      owned := s in sinks || (s < |all| && all[s].handles > 0)
               || (exists j :: j in queue && Captures(j, s)) || (todo != [] && s in todo[1..]);
    }

    method DestroySink(s: nat, closer: Life)
      requires Distinct() && s < |all|
      modifies all[s]
      ensures Views(all) == Close(old(Views(all)), s, closer)
    {
      all[s].Destroy(closer);
      assert Views(all) == Close(old(Views(all)), s, closer);
    }

    /** The next reference is dropped: the last owner destroys the sink. */
    method CloseSink()
      requires Distinct() && CanClose(View())
      modifies this, all
      ensures all == old(all) && View() == CloseNext(old(View()))
    {
      hide Views, Close, OwnedElsewhere;
      var todo, after := phase.todo, phase.after;
      if todo == [] {
        phase := match after case Resume => Running case Exit => Exited case Gone => Destroyed;
      } else {
        var owned := HasOtherOwner(todo[0]);
        if all[todo[0]].life.Open? && !owned {
          DestroySink(todo[0], if after.Gone? then ClosedByClient else ClosedByWorker);
        } else {
          phase := Closing(todo[1..], after);
        }
      }
    }

    /** A client takes or lets go of a shared pointer. */
    method SetHandles(s: nat, n: nat)
      requires Distinct() && s < |all|
      modifies all[s]
      ensures Views(all) == old(Views(all))[s := old(Views(all))[s].(handles := n)]
    {
      all[s].handles := n;
      assert Views(all) == old(Views(all))[s := old(Views(all))[s].(handles := n)];
    }

    method Drop(s: nat)
      requires Distinct() && s < |all| && all[s].handles > 0
      modifies all
      ensures View() == DropOne(old(View()), s)
    {
      hide Views, OwnedElsewhere, Close, Captured;
      SetHandles(s, all[s].handles - 1);
      var todo := if phase.Closing? then phase.todo else [];
      var owned := HasOtherOwner(s);
      if !owned && s !in todo && all[s].life.Open? {
        DestroySink(s, ClosedByClient);
      }
    }

    method AddNew()
      requires Distinct() && ClientsActive(View())
      modifies this
      ensures Distinct() && View() == Next(old(View()), PushAdd)
      ensures |all| == |old(all)| + 1 && all[..|old(all)|] == old(all) && fresh(all[|old(all)|])
    {
      hide Views;
      var k := new SinkThread();
      Enqueue(AddSink(|all|));
      all := all + [k];
      assert all[..|all| - 1] == old(all);
      ViewsSnoc(old(all), k);
    }

    method RunSink(s: nat)
      requires Distinct() && Enabled(View(), SinkRun(s))
      modifies all
      ensures View() == Next(old(View()), SinkRun(s))
    {
      all[s].RunNext();
      assert Views(all) == Next(old(View()), SinkRun(s)).all;
    }

    /** The rest of the destructor: unrun jobs go first, then the remaining sinks. */
    method Dismantle()
      requires phase.Stopped?
      modifies this
      ensures all == old(all) && View() == Next(old(View()), DestroyWorker)
    {
      phase := Closing(CapturedIds(queue) + sinks, Gone);
      queue, sinks := [], [];
    }

    /** Every action of every thread, and what it keeps. */
    method Do(step: Step)
      requires Valid() && Enabled(View(), step)
      modifies this, all
      ensures Valid() && View() == Next(old(View()), step)
      ensures forall k <- all :: k in old(all) || fresh(k)
    {
      hide Views, Lifecycle, History, Routing, Known, RunJob, CloseNext, CanClose, DropOne,
           Send, CapturedIds, Captured, OwnedElsewhere, Reachable;
      ghost var was := View();
      LifecycleStep(was, step);
      HistoryStep(was, step);
      RoutingStep(was, step);
      match step
      case PushSave(m) => Enqueue(Save(m));
      case PushFatal(m, level, reason) => Enqueue(Fatal(m, level, reason));
      case PushAdd => AddNew();
      case PushRemove(s) => Enqueue(RemoveSink(s));
      case PushClear => Enqueue(ClearSinks);
      case PushHot(s, c) => Enqueue(HotUpdate(s, c));
      case PushPoison => Enqueue(Poison);
      case CallSink(s, c) => SendTo(s, Direct(c));
      case TakeHandle(s) => SetHandles(s, all[s].handles + 1);
      case DropHandle(s) => Drop(s);
      case WorkerRun => LifecycleKnown(was); RunNext();
      case WorkerClose => CloseSink();
      case DestroyWorker => Dismantle();
      case SinkRun(s) => RunSink(s);
    }
  }

  lemma LifecycleKnown(st: State)
    requires Lifecycle(st) && st.queue != []
    ensures Below(st.sinks, |st.all|) && (st.queue[0].HotUpdate? ==> st.queue[0].s < |st.all|)
  {
    assert st.queue[0] in st.queue;
  }
}
