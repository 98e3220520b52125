/** The two kinds of threads of the pipeline are active objects: when one has ended,
    it has run what the loop of an active object runs of all that was ever sent. */
module ThreadLoops {
  import opened ActiveObject
  import opened Pipeline
  import opened PipelineLifecycle
  import opened PipelineRouting
  import opened PipelineShutdown

  function SinkCalls(jobs: seq<SinkJob>): (r: seq<Job<SinkJob>>)
    ensures |r| == |jobs|
  {
    seq(|jobs|, i requires 0 <= i < |jobs| => if jobs[i].Stop? then Quit else Call(jobs[i]))
  }

  function WorkerCalls(jobs: seq<WorkerJob>): (r: seq<Job<WorkerJob>>)
    ensures |r| == |jobs|
  {
    seq(|jobs|, i requires 0 <= i < |jobs| => if jobs[i].Poison? then Quit else Call(jobs[i]))
  }

  lemma SinkThread(st: State, s: nat)
    requires Reachable(st) && s < |st.all| && st.all[s].Stopped()
    ensures SinkCalls(st.all[s].ran) == UpToQuit(SinkCalls(st.all[s].Jobs()))
  {
    StoppedIsDrained(st, s);
    var ran := st.all[s].ran;
    var calls, n := SinkCalls(ran), |ran|;
    assert st.all[s].Jobs() == ran;
    forall i | 0 <= i < n - 1 ensures calls[i] != Quit {
      assert ran[i] == ran[..n - 1][i];
    }
    FirstQuit(calls, n);
    assert calls[..n] == calls;
  }

  lemma WorkerThread(st: State)
    requires Reachable(st) && (st.phase.Stopped? || Dismantled(st))
    ensures WorkerCalls(st.executed) == UpToQuit(WorkerCalls(st.pushed))
  {
    WorkerDrained(st);
    var calls, n := WorkerCalls(st.pushed), |st.executed|;
    FirstQuit(calls, n);
    assert calls[..n] == WorkerCalls(st.executed);
  }
}
