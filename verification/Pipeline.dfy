/** The asynchronous delivery pipeline as a step system: clients push jobs to the
    worker's queue, the worker forwards messages to the sinks' queues, each sink
    thread runs its own queue. Every label of a step is one atomic action of one
    thread, so a run is any sequence of enabled steps. */
module Pipeline {

  datatype Message = Message(producer: nat, text: string)

  /** Jobs on the worker's queue. HotUpdate and AddSink hold a shared pointer to
      their sink for as long as they are queued. */
  datatype WorkerJob =
    | Save(m: Message)
    | Fatal(m: Message, level: string, reason: string)
    | AddSink(s: nat)
    | RemoveSink(s: nat)
    | ClearSinks
    | HotUpdate(s: nat, call: nat)
    | Poison

  /** Jobs on a sink's queue: a message, a call that travelled through the worker,
      a call made directly on the sink, and the poison job of its destructor. */
  datatype SinkJob = Deliver(m: Message) | Updated(call: nat) | Direct(call: nat) | Stop

  /** Which thread runs the destructor of a sink, once nobody owns it. */
  datatype Life = Open | ClosedByWorker | ClosedByClient

  /** A sink with its thread: the queue, what its thread has run, how many shared
      pointers clients hold, and whether its destructor has begun. */
  datatype Sink = Sink(queue: seq<SinkJob>, ran: seq<SinkJob>, handles: nat, life: Life)
  {
    /** The thread has run the poison job and left its loop. */
    predicate Stopped() { Stop in ran }

    function Jobs(): seq<SinkJob> { ran + queue }
  }

  /** What the worker thread does after dropping references. */
  datatype Ending = Resume | Exit | Gone

  /** The worker is between jobs, is dropping references to sinks (joining the
      threads of those it was the last owner of), has reached the exit call of a
      fatal message, or has left its loop. */
  datatype Phase = Running | Closing(todo: seq<nat>, after: Ending) | Exited | Stopped | Destroyed

  /** The whole system. Sinks are numbered in order of creation; pushed and
      executed are histories. */
  datatype State = State(
    pushed: seq<WorkerJob>, queue: seq<WorkerJob>, executed: seq<WorkerJob>,
    sinks: seq<nat>, all: seq<Sink>, phase: Phase)

  const START := State([], [], [], [], [], Running)

  // ---------------------------------------------------------------- building blocks

  /** The text of a fatal message once the worker has completed it. */
  function FatalMessage(m: Message, level: string, reason: string): Message
  {
    m.(text := m.text + "\nExiting after fatal event  (" + level + "). Fatal type:  " + reason
               + "\nLog content flushed successfully to sink\n\n")
  }

  function Send(all: seq<Sink>, s: nat, j: SinkJob): (r: seq<Sink>)
    ensures |r| == |all|
  {
    if s < |all| then all[s := all[s].(queue := all[s].queue + [j])] else all
  }

  /** The destructor of a sink begins: its poison job goes to the end of its queue. */
  function Close(all: seq<Sink>, s: nat, closer: Life): (r: seq<Sink>)
    requires s < |all|
    ensures |r| == |all|
  {
    all[s := all[s].(queue := all[s].queue + [Stop], life := closer)]
  }

  /** One copy of a job to every sink in the list. */
  function Forward(all: seq<Sink>, sinks: seq<nat>, j: SinkJob): (r: seq<Sink>)
    ensures |r| == |all|
  {
    if sinks == [] then all
    else Send(Forward(all, sinks[..|sinks| - 1], j), sinks[|sinks| - 1], j)
  }

  /** The list without one sink. */
  function Without(sinks: seq<nat>, s: nat): seq<nat>
  {
    if sinks == [] then []
    else
      var front, last := Without(sinks[..|sinks| - 1], s), sinks[|sinks| - 1];
      if last == s then front else front + [last]
  }

  predicate Captures(j: WorkerJob, s: nat)
  {
    (j.HotUpdate? && j.s == s) || (j.AddSink? && j.s == s)
  }

  /** A queued job holds a shared pointer to the sink. */
  predicate Captured(queue: seq<WorkerJob>, s: nat)
  {
    exists j :: j in queue && Captures(j, s)
  }

  function CapturedIds(queue: seq<WorkerJob>): seq<nat>
  {
    if queue == [] then []
    else
      var j := queue[|queue| - 1];
      CapturedIds(queue[..|queue| - 1]) + if j.HotUpdate? || j.AddSink? then [j.s] else []
  }

  function Todo(st: State): seq<nat> { if st.phase.Closing? then st.phase.todo else [] }

  /** Somebody besides the head of the closing list owns the sink. */
  predicate OwnedElsewhere(st: State, s: nat)
  {
    || s in st.sinks
    || (s < |st.all| && st.all[s].handles > 0)
    || Captured(st.queue, s)
    || (Todo(st) != [] && s in Todo(st)[1..])
  }

  predicate Owned(st: State, s: nat) { OwnedElsewhere(st, s) || s in Todo(st) }

  predicate Alive(st: State, s: nat) { s < |st.all| && st.all[s].life.Open? }

  function PushJob(st: State, j: WorkerJob): State
  {
    st.(pushed := st.pushed + [j], queue := st.queue + [j])
  }

  // ---------------------------------------------------------------- the worker

  /** The worker takes its next job and runs it up to the point where it drops
      references. */
  function RunJob(st: State): State
    requires st.queue != []
  {
    var j := st.queue[0];
    var t := st.(queue := st.queue[1..], executed := st.executed + [j]);
    match j
    case Save(m) => t.(all := Forward(t.all, t.sinks, Deliver(m)))
    case Fatal(m, level, reason) =>
      t.(all := Forward(t.all, t.sinks, Deliver(FatalMessage(m, level, reason))),
         sinks := [], phase := Closing(t.sinks, Exit))
    case AddSink(s) => t.(sinks := t.sinks + [s])
    case RemoveSink(s) =>
      if Alive(st, s) then t.(sinks := Without(t.sinks, s), phase := Closing([s], Resume)) else t
    case ClearSinks => t.(sinks := [], phase := Closing(t.sinks, Resume))
    case HotUpdate(s, c) => t.(all := Send(t.all, s, Updated(c)), phase := Closing([s], Resume))
    case Poison => t.(phase := Stopped)
  }

  /** Dropping the next reference: nothing more happens while the sink has other
      owners; otherwise its poison job is pushed and its thread is joined. */
  predicate CanClose(st: State)
  {
    && st.phase.Closing?
    && (st.phase.todo != [] ==>
          var s := st.phase.todo[0];
          s < |st.all| && (st.all[s].life.Open? || st.all[s].Stopped()))
  }

  function CloseNext(st: State): State
    requires CanClose(st)
  {
    var todo, after := st.phase.todo, st.phase.after;
    if todo == [] then
      st.(phase := match after case Resume => Running case Exit => Exited case Gone => Destroyed)
    else
      var s := todo[0];
      if st.all[s].life.Open? && !OwnedElsewhere(st, s) then
        st.(all := Close(st.all, s, if after.Gone? then ClosedByClient else ClosedByWorker))
      else st.(phase := Closing(todo[1..], after))
  }

  // ---------------------------------------------------------------- steps

  datatype Step =
    | PushSave(m: Message)
    | PushFatal(m: Message, level: string, reason: string)
    | PushAdd
    | PushRemove(s: nat)
    | PushClear
    | PushHot(s: nat, c: nat)
    | PushPoison
    | CallSink(s: nat, c: nat)
    | TakeHandle(s: nat)
    | DropHandle(s: nat)
    | WorkerRun
    | WorkerClose
    | DestroyWorker
    | SinkRun(s: nat)

  /** Clients may act until the process exits or the worker object is gone. */
  predicate ClientsActive(st: State)
  {
    !st.phase.Exited? && !st.phase.Destroyed? && !(st.phase.Closing? && st.phase.after.Gone?)
  }

  predicate Enabled(st: State, step: Step)
  {
    match step
    case PushSave(_) => ClientsActive(st)
    case PushFatal(_, _, _) => ClientsActive(st)
    case PushAdd => ClientsActive(st)
    case PushRemove(s) => ClientsActive(st) && s < |st.all|
    case PushClear => ClientsActive(st)
    case PushHot(s, _) => ClientsActive(st) && s < |st.all| && st.all[s].handles > 0
    case PushPoison => ClientsActive(st) && Poison !in st.pushed
    case CallSink(s, _) => !st.phase.Exited? && Alive(st, s)
    case TakeHandle(s) => !st.phase.Exited? && Alive(st, s)
    case DropHandle(s) => !st.phase.Exited? && s < |st.all| && st.all[s].handles > 0
    case WorkerRun => st.phase.Running? && st.queue != []
    case WorkerClose => CanClose(st)
    case DestroyWorker => st.phase.Stopped?
    case SinkRun(s) =>
      !st.phase.Exited? && s < |st.all| && st.all[s].queue != [] && !st.all[s].Stopped()
  }

  function Next(st: State, step: Step): State
    requires Enabled(st, step)
  {
    match step
    case PushSave(m) => PushJob(st, Save(m))
    case PushFatal(m, level, reason) => PushJob(st, Fatal(m, level, reason))
    case PushAdd =>
      // addSink itself holds the new sink until it returns
      PushJob(st, AddSink(|st.all|)).(all := st.all + [Sink([], [], 1, Open)])
    case PushRemove(s) => PushJob(st, RemoveSink(s))
    case PushClear => PushJob(st, ClearSinks)
    case PushHot(s, c) => PushJob(st, HotUpdate(s, c))
    case PushPoison => PushJob(st, Poison)
    case CallSink(s, c) => st.(all := Send(st.all, s, Direct(c)))
    case TakeHandle(s) => st.(all := st.all[s := st.all[s].(handles := st.all[s].handles + 1)])
    case DropHandle(s) => DropOne(st, s)
    case WorkerRun => RunJob(st)
    case WorkerClose => CloseNext(st)
    case DestroyWorker =>
      // the unrun jobs go first, then the sinks added after the last clear
      st.(queue := [], sinks := [], phase := Closing(CapturedIds(st.queue) + st.sinks, Gone))
    case SinkRun(s) =>
      var k := st.all[s];
      st.(all := st.all[s := k.(queue := k.queue[1..], ran := k.ran + [k.queue[0]])])
  }

  /** A client lets go of a shared pointer; the last owner runs the destructor. */
  function DropOne(st: State, s: nat): State
    requires s < |st.all| && st.all[s].handles > 0
  {
    var t := st.(all := st.all[s := st.all[s].(handles := st.all[s].handles - 1)]);
    if Owned(t, s) || !t.all[s].life.Open? then t
    else t.(all := Close(t.all, s, ClosedByClient))
  }

  /** A run from a state: every step is enabled where it is taken. */
  predicate Runs(st: State, steps: seq<Step>)
    decreases |steps|
  {
    steps == [] || (Enabled(st, steps[0]) && Runs(Next(st, steps[0]), steps[1..]))
  }

  function Final(st: State, steps: seq<Step>): State
    requires Runs(st, steps)
    decreases |steps|
  {
    if steps == [] then st else Final(Next(st, steps[0]), steps[1..])
  }

  /** The states a run from the start can reach. */
  ghost predicate Reachable(st: State)
  {
    exists steps :: Runs(START, steps) && Final(START, steps) == st
  }

  // ---------------------------------------------------------------- what should happen

  /** The sinks registered after some more jobs, in order of registration. */
  function Registered(start: seq<nat>, jobs: seq<WorkerJob>): seq<nat>
  {
    if jobs == [] then start
    else
      var before := Registered(start, jobs[..|jobs| - 1]);
      match jobs[|jobs| - 1]
      case AddSink(s) => before + [s]
      case RemoveSink(s) => Without(before, s)
      case ClearSinks => []
      case Fatal(_, _, _) => []
      case _ => before
  }

  /** What one job routes to a sink, given the sinks registered before it. */
  function Routes(j: WorkerJob, registered: seq<nat>, s: nat): seq<SinkJob>
  {
    match j
    case Save(m) => if s in registered then [Deliver(m)] else []
    case Fatal(m, level, reason) =>
      if s in registered then [Deliver(FatalMessage(m, level, reason))] else []
    case HotUpdate(s', c) => if s == s' then [Updated(c)] else []
    case _ => []
  }

  /** Everything some executed jobs route to a sink, in order: the messages saved
      while it was registered, and its hot updates in their place between them. */
  function Trace(start: seq<nat>, jobs: seq<WorkerJob>, s: nat): seq<SinkJob>
  {
    if jobs == [] then []
    else
      var before := jobs[..|jobs| - 1];
      Trace(start, before, s) + Routes(jobs[|jobs| - 1], Registered(start, before), s)
  }

  /** The jobs of a sink that came through the worker. */
  function Routed(jobs: seq<SinkJob>): seq<SinkJob>
  {
    if jobs == [] then []
    else
      var last := jobs[|jobs| - 1];
      Routed(jobs[..|jobs| - 1]) + if last.Deliver? || last.Updated? then [last] else []
  }
}
