/** A queue between threads. Every operation holds the queue's lock, so it is one
    atomic step. */
module SharedQueue {
  import opened Wrappers

  /** Some batches, one behind the other. */
  function Joined<T>(batches: seq<seq<T>>): seq<T>
  {
    if batches == [] then [] else batches[0] + Joined(batches[1..])
  }

  class SharedQueue<T> {
    var items: seq<T>
    /** What the other threads will push: a batch, which may be empty, before each
        time that the consumer looks at the queue. */
    var incoming: seq<seq<T>>

    constructor (incoming: seq<seq<T>>)
      ensures items == [] && this.incoming == incoming
    {
      items, this.incoming := [], incoming;
    }

    /** All that is or will be in the queue, in order. */
    function Stream(): seq<T>
      reads this
    {
      items + Joined(incoming)
    }

    method Push(item: T)
      modifies this
      ensures items == old(items) + [item] && incoming == old(incoming)
    {
      items := items + [item];
    }

    method TryAndPop() returns (r: Option<T>)
      modifies this
      ensures old(items) == [] ==> r == None && items == []
      ensures old(items) != [] ==> r.Some? && old(items) == [r.value] + items
      ensures incoming == old(incoming)
    {
      if items == [] { return None; }
      r := Some(items[0]);
      items := items[1..];
    }

    /** The other threads have had the lock. */
    method Arrive()
      modifies this
      ensures Stream() == old(Stream())
      ensures |incoming| == if old(incoming) == [] then 0 else |old(incoming)| - 1
    {
      if incoming != [] {
        Joining(items, incoming);
        items, incoming := items + incoming[0], incoming[1..];
      }
    }

    /** Waits as long as the queue is empty, also when it is woken up for nothing,
        and takes the first item that is ever pushed. It does not return if none is. */
    method WaitAndPop() returns (item: T)
      requires Stream() != []
      modifies this
      ensures old(Stream()) == [item] + Stream()
    {
      Arrive();
      while items == []
        invariant Stream() == old(Stream()) != []
        decreases |incoming|
      {
        Arrive();
      }
      assert items == [items[0]] + items[1..];
      assert ([items[0]] + items[1..]) + Joined(incoming) == [items[0]] + (items[1..] + Joined(incoming));
      item := items[0];
      items := items[1..];
    }
  }

  lemma Joining<T>(items: seq<T>, batches: seq<seq<T>>)
    requires batches != []
    ensures (items + batches[0]) + Joined(batches[1..]) == items + Joined(batches)
  {
  }
}

/** An object with a thread of its own that runs the jobs sent to it. */
module ActiveObject {
  import opened SharedQueue

  /** A callback, or the one that its destructor sends to end the loop. */
  datatype Job<T> = Call(work: T) | Quit

  /** The jobs up to and including the first that ends the loop. */
  function UpToQuit<T>(jobs: seq<Job<T>>): (r: seq<Job<T>>)
    ensures |r| <= |jobs| && r == jobs[..|r|]
    ensures Quit in jobs ==> r != [] && r[|r| - 1] == Quit && Quit !in r[..|r| - 1]
    ensures Quit !in jobs ==> r == jobs
  {
    if jobs == [] then []
    else if jobs[0] == Quit then [Quit]
    else
      var rest := UpToQuit(jobs[1..]);
      assert jobs == [jobs[0]] + jobs[1..];
      [jobs[0]] + rest
  }

  class Active<T(==)> {
    const mq: SharedQueue<Job<T>>
    var done: bool
    /** What the thread has run, as a history. */
    var ran: seq<Job<T>>

    constructor (incoming: seq<seq<Job<T>>>)
      ensures fresh(mq) && mq.items == [] && mq.incoming == incoming && !done && ran == []
    {
      mq := new SharedQueue(incoming);
      done, ran := false, [];
    }

    method Send(job: Job<T>)
      modifies mq
      ensures mq.items == old(mq.items) + [job] && mq.incoming == old(mq.incoming)
    {
      mq.Push(job);
    }

    /** The thread's loop. Whenever the other threads push their jobs, it runs exactly
        the jobs up to the one that ends it, in the order of pushing, and leaves those
        behind. It does not end if no such job is ever pushed. */
    method Run()
      requires !done ==> Quit in mq.Stream()
      modifies this, mq
      ensures done
      ensures old(done) ==> ran == old(ran) && mq.Stream() == old(mq.Stream())
      ensures !old(done) ==> ran == old(ran) + UpToQuit(old(mq.Stream()))
                             && ran + mq.Stream() == old(ran) + old(mq.Stream())
    {
      ghost var was := mq.Stream();
      ghost var k: nat := 0;
      while !done
        invariant k <= |was| && ran == old(ran) + was[..k] && mq.Stream() == was[k..]
        invariant !done ==> Quit in was[k..] && Quit !in was[..k]
        invariant done && !old(done) ==> 0 < k && was[k - 1] == Quit && Quit !in was[..k - 1]
        invariant old(done) ==> k == 0 && done
        decreases |was| - k, !done
      {
        var func := mq.WaitAndPop();
        assert func == was[k] && was[..k + 1] == was[..k] + [func];
        assert was[k..] == [func] + was[k + 1..];
        done := func == Quit;
        ran := ran + [func];
        k := k + 1;
      }
      if !old(done) { FirstQuit(was, k); }
    }

    /** The destructor: send the last job and wait for the thread to end. Everything
        sent before has then run; what other threads send later never runs. */
    method Destroy()
      requires !done && Quit !in mq.items
      modifies this, mq
      ensures done && ran == old(ran) + old(mq.items) + [Quit]
      ensures mq.Stream() == Joined(old(mq.incoming))
    {
      ghost var before, later := mq.items, Joined(mq.incoming);
      Send(Quit);
      ghost var was := mq.Stream();
      assert was == (before + [Quit]) + later;
      assert was[..|before| + 1] == before + [Quit] && was[..|before|] == before;
      FirstQuit(was, |before| + 1);
      Run();
      assert mq.Stream() == (ran + mq.Stream())[|ran|..];
      assert (old(ran) + was)[|ran|..] == later;
    }
  }

  lemma {:induction false} FirstQuit<T>(jobs: seq<Job<T>>, k: nat)
    requires 0 < k <= |jobs| && jobs[k - 1] == Quit && Quit !in jobs[..k - 1]
    ensures UpToQuit(jobs) == jobs[..k]
  {
    if k > 1 {
      assert jobs[0] in jobs[..k - 1];
      assert jobs[1..][..k - 2] == jobs[..k - 1][1..];
      FirstQuit(jobs[1..], k - 1);
      assert jobs[..k] == [jobs[0]] + jobs[1..][..k - 1];
    }
  }
}
