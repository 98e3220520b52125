/** The global logger: which worker gets what, from before its initialisation until
    after its shutdown. */
module LogInit {
  import opened Wrappers

  /** What runs before a fatal message is sent. At first there is no function at
      all, which cannot be called. */
  datatype Hook = Empty | Nothing | Client(id: nat)

  /** What a worker is given: a message logged while it was active, the one kept from
      before the initialisation, or a fatal message, which may tell of an earlier one. */
  datatype Given =
    | Logged(worker: nat, text: string)
    | Kept(worker: nat, text: string)
    | Fatal(worker: nat, text: string, recursive: bool)

  /** How the process goes on. An exception ends it, unless the client that logs the
      message catches it. */
  datatype Fate = Alive | ExitFailure | DefaultSignal | UncaughtException

  datatype Logger = Logger(
    instance: Option<nat>, firstMessage: Option<string>, setFirst: bool, saveFirst: bool,
    hook: Hook, hookCalls: nat, hooksRun: seq<nat>, given: seq<Given>, fate: Fate)

  const START := Logger(None, None, false, false, Empty, 0, [], [], Alive)

  datatype Call =
    | Initialize(worker: Option<nat>)
    | Log(text: string)
    | LogFatal(text: string, caught: bool)
    | SetHook(hook: Hook)
    | Shutdown
    | ShutdownActive(worker: Option<nat>)

  function Uninitialized(text: string): string { "LOGGER NOT INITIALIZED:\n\t\t" + text }

  const WARNING := "\n\t\tAttempted to shut down logging, but the ID of the Logger is not the one that is active."
                   + "\n\t\tHaving multiple instances of the g3::LogWorker is likely a BUG"
                   + "\n\t\tEither way, this call to shutDownLogging was ignored"
                   + "\n\t\tTry g3::internal::shutDownLogging() instead"

  // ---------------------------------------------------------------- the calls

  function Push(l: Logger, text: string): Logger
  {
    if l.instance.Some? then l.(given := l.given + [Logged(l.instance.value, text)])
    else if l.setFirst then l
    else l.(setFirst := true, firstMessage := Some(Uninitialized(text)))
  }

  function Do(l: Logger, call: Call): Logger
  {
    if !l.fate.Alive? then l
    else match call
      case Initialize(worker) =>
        if l.instance.Some? || worker.None? then l.(fate := ExitFailure)
        else
          var t := if l.saveFirst then l
                   else if l.firstMessage.None? then l.(saveFirst := true)
                   else l.(saveFirst := true, firstMessage := None,
                           given := l.given + [Kept(worker.value, l.firstMessage.value)]);
          t.(instance := worker, hook := Nothing, hookCalls := 0)
      case Log(text) => Push(l, text)
      case LogFatal(text, caught) =>
        var t := l.(hook := Nothing, hookCalls := l.hookCalls + 1,
                    hooksRun := l.hooksRun + if l.hook.Client? then [l.hook.id] else []);
        if l.hook.Empty? then t.(fate := if caught then Alive else UncaughtException)
        else if l.instance.None? then t.(fate := DefaultSignal)
        else t.(given := l.given + [Fatal(l.instance.value, text, t.hookCalls > 1)])
      case SetHook(hook) => l.(hook := hook)
      case Shutdown => l.(instance := None)
      case ShutdownActive(worker) =>
        if l.instance.Some? && worker.Some? && worker != l.instance then Push(l, WARNING)
        else l.(instance := None)
  }

  function Run(calls: seq<Call>): Logger
  {
    if calls == [] then START else Do(Run(calls[..|calls| - 1]), calls[|calls| - 1])
  }

  // ---------------------------------------------------------------- the kept message

  /** The position of the first initialisation, or the number of calls. */
  function FirstInitialize(calls: seq<Call>): (k: nat)
    ensures k <= |calls|
    ensures forall i | 0 <= i < k :: !calls[i].Initialize?
    ensures k < |calls| ==> calls[k].Initialize?
  {
    if calls == [] then 0
    else
      var n := |calls| - 1;
      var k := FirstInitialize(calls[..n]);
      if k < n || calls[n].Initialize? then k else n + 1
  }

  /** The first message of some calls, if any. */
  function FirstLog(calls: seq<Call>): Option<string>
  {
    if calls == [] then None
    else
      var n := |calls| - 1;
      var before := FirstLog(calls[..n]);
      if before.Some? then before else if calls[n].Log? then Some(calls[n].text) else None
  }

  predicate NoneKept(given: seq<Given>) { forall g <- given :: !g.Kept? }

  /** While nothing has been initialised, the first message is kept and nobody is
      given anything. */
  lemma {:induction false} BeforeInitialize(calls: seq<Call>)
    requires FirstInitialize(calls) == |calls|
    ensures var l := Run(calls);
            && l.instance.None? && !l.saveFirst && l.given == []
            && (l.fate.Alive? ==>
                  && l.setFirst == l.firstMessage.Some? == FirstLog(calls).Some?
                  && (l.setFirst ==> l.firstMessage == Some(Uninitialized(FirstLog(calls).value))))
  {
    hide Uninitialized;
    if calls != [] {
      BeforeInitialize(calls[..|calls| - 1]);
    }
  }

  /** The kept message, if there is one, comes first; no other was kept. */
  predicate KeptFirst(given: seq<Given>, first: Option<string>, worker: nat)
  {
    match first
    case None => NoneKept(given)
    case Some(text) =>
      given != [] && given[0] == Kept(worker, Uninitialized(text)) && NoneKept(given[1..])
  }

  lemma InitializeFirst(calls: seq<Call>, worker: Option<nat>)
    requires FirstInitialize(calls) == |calls|
    ensures var l := Do(Run(calls), Initialize(worker));
            if !Run(calls).fate.Alive? || worker.None? then !l.fate.Alive? && l.given == []
            else l.saveFirst && KeptFirst(l.given, FirstLog(calls), worker.value)
  {
    hide Uninitialized, FirstLog, FirstInitialize, Run;
    BeforeInitialize(calls);
  }

  /** What the workers are given over any run. Nothing before the first
      initialisation. If that succeeds, the first message logged until then comes
      first, if there is one; it goes to that worker, once; no message logged later
      without a worker ever does. */
  lemma {:induction false} KeptMessage(calls: seq<Call>)
    requires FirstInitialize(calls) < |calls|
    ensures var k := FirstInitialize(calls);
            var l, worker := Run(calls), calls[k].worker;
            if !Run(calls[..k]).fate.Alive? || worker.None? then !l.fate.Alive? && l.given == []
            else l.saveFirst && KeptFirst(l.given, FirstLog(calls[..k]), worker.value)
  {
    hide Uninitialized, FirstLog, Do, KeptFirst;
    var n := |calls| - 1;
    var k := FirstInitialize(calls);
    if k == n {
      assert FirstInitialize(calls[..n]) == n;
      InitializeFirst(calls[..n], calls[n].worker);
    } else {
      KeptMessage(calls[..n]);
      assert calls[..n][..k] == calls[..k];
      var l := Run(calls[..n]);
      DeadStays(l, calls[n]);
      if l.saveFirst && calls[k].worker.Some? {
        Later(l, calls[n]);
        KeptFirstGrows(l.given, Do(l, calls[n]).given, FirstLog(calls[..k]), calls[k].worker.value);
      }
    }
  }

  lemma DeadStays(l: Logger, call: Call)
    ensures !l.fate.Alive? ==> Do(l, call) == l
  {
  }

  lemma KeptFirstGrows(given: seq<Given>, more: seq<Given>, first: Option<string>, worker: nat)
    requires more == given
             || (|more| == |given| + 1 && more[..|given|] == given && !more[|given|].Kept?)
    ensures KeptFirst(given, first, worker) ==> KeptFirst(more, first, worker)
  {
    if |more| == |given| + 1 {
      assert more == given + [more[|given|]];
    }
  }

  /** Once the kept message has had its chance, a call gives at most one more item,
      behind the others, and never a kept one. */
  lemma Later(l: Logger, call: Call)
    requires l.saveFirst
    ensures Do(l, call).saveFirst
    ensures Do(l, call).given == l.given
            || (|Do(l, call).given| == |l.given| + 1 && Do(l, call).given[..|l.given|] == l.given
                && !Do(l, call).given[|l.given|].Kept?)
  {
    hide Uninitialized;
  }

  // ---------------------------------------------------------------- routing and the hook

  /** The worker that logging goes to: that of the last initialisation, unless a
      shutdown that was not refused came after it. */
  function ActiveWorker(calls: seq<Call>): Option<nat>
  {
    if calls == [] then None
    else
      var n := |calls| - 1;
      var before := ActiveWorker(calls[..n]);
      match calls[n]
      case Initialize(worker) => worker
      case Shutdown => None
      case ShutdownActive(w) => if before.Some? && w.Some? && w != before then before else None
      case _ => before
  }

  /** The fatal messages since the last initialisation. */
  function FatalsSince(calls: seq<Call>): nat
  {
    if calls == [] then 0
    else
      var before := FatalsSince(calls[..|calls| - 1]);
      match calls[|calls| - 1]
      case Initialize(_) => 0
      case LogFatal(_, _) => before + 1
      case _ => before
  }

  /** The hook in force: the one set last, until a fatal message or an
      initialisation takes it away. */
  function HookOf(calls: seq<Call>): Hook
  {
    if calls == [] then Empty
    else match calls[|calls| - 1]
      case Initialize(_) => Nothing
      case LogFatal(_, _) => Nothing
      case SetHook(h) => h
      case _ => HookOf(calls[..|calls| - 1])
  }

  lemma {:induction false} StateOf(calls: seq<Call>)
    requires Run(calls).fate.Alive?
    ensures Run(calls).instance == ActiveWorker(calls)
    ensures Run(calls).hookCalls == FatalsSince(calls)
    ensures Run(calls).hook == HookOf(calls)
  {
    hide Uninitialized;
    if calls != [] {
      StateOf(calls[..|calls| - 1]);
    }
  }

  /** A message goes to the active worker, and to nobody else. */
  lemma LogReachesActive(calls: seq<Call>, text: string)
    requires Run(calls).fate.Alive?
    ensures Run(calls + [Log(text)]).given
            == Run(calls).given
               + (match ActiveWorker(calls) case Some(w) => [Logged(w, text)] case None => [])
  {
    StateOf(calls);
    assert (calls + [Log(text)])[..|calls|] == calls;
    assert Run(calls).given + [] == Run(calls).given;
  }

  /** A fatal message runs the hook in force, once: no hook is left for a crash inside
      the hook. It tells of a recursive crash exactly if another fatal message came
      since the last initialisation. With no function for a hook it is not sent, but
      throws, and the process lives on exactly if that is caught. */
  lemma FatalRunsHookOnce(calls: seq<Call>, text: string, caught: bool)
    requires Run(calls).fate.Alive?
    ensures var was, l := Run(calls), Run(calls + [LogFatal(text, caught)]);
            && l.hook == Nothing
            && l.hooksRun == was.hooksRun + (match HookOf(calls) case Client(id) => [id] case _ => [])
            && l.given == was.given
                          + (if HookOf(calls).Empty? || ActiveWorker(calls).None? then []
                             else [Fatal(ActiveWorker(calls).value, text, FatalsSince(calls) > 0)])
            && l.fate == (if HookOf(calls).Empty? then if caught then Alive else UncaughtException
                          else if ActiveWorker(calls).None? then DefaultSignal else Alive)
  {
    hide Uninitialized, HookOf, ActiveWorker, FatalsSince;
    StateOf(calls);
    assert (calls + [LogFatal(text, caught)])[..|calls|] == calls;
    assert Run(calls).hooksRun + [] == Run(calls).hooksRun && Run(calls).given + [] == Run(calls).given;
  }

  /** The kept message still ends with the text that was logged. */
  lemma KeptText(text: string)
    ensures |Uninitialized(text)| > |text|
    ensures Uninitialized(text)[|Uninitialized(text)| - |text|..] == text
  {
  }

  /** An initialisation ends the process exactly if there is an active worker already, or
      none is given; otherwise that worker is active, and nothing is left of the hook. */
  lemma InitializeExactly(calls: seq<Call>, worker: Option<nat>)
    requires Run(calls).fate.Alive?
    ensures var l := Run(calls + [Initialize(worker)]);
            && (l.fate == ExitFailure <==> ActiveWorker(calls).Some? || worker.None?)
            && (l.fate == ExitFailure || l.fate == Alive)
            && (l.fate.Alive? ==> l.instance == worker && l.hook == Nothing && l.hookCalls == 0)
  {
    hide Uninitialized;
    StateOf(calls);
    assert (calls + [Initialize(worker)])[..|calls|] == calls;
  }

  /** A shutdown asked for by another worker is refused, and the active one is given
      exactly one message, the warning; any other ends logging and gives nothing. */
  lemma ShutdownExactly(calls: seq<Call>, worker: Option<nat>)
    requires Run(calls).fate.Alive?
    ensures var l, active := Run(calls + [ShutdownActive(worker)]), ActiveWorker(calls);
            && (active.Some? && worker.Some? && worker != active ==>
                  l.instance == active && l.given == Run(calls).given + [Logged(active.value, WARNING)])
            && (active.None? || worker.None? || worker == active ==>
                  l.instance == None && l.given == Run(calls).given)
  {
    hide Uninitialized;
    StateOf(calls);
    assert (calls + [ShutdownActive(worker)])[..|calls|] == calls;
  }

  // ---------------------------------------------------------------- the globals

  class Globals {
    var instance: Option<nat>
    var firstMessage: Option<string>
    var setFirst: bool
    var saveFirst: bool
    var hook: Hook
    var hookCalls: nat
    var hooksRun: seq<nat>
    var given: seq<Given>
    var fate: Fate

    constructor ()
      ensures View() == START
    {
      instance, firstMessage, setFirst, saveFirst := None, None, false, false;
      hook, hookCalls, hooksRun, given, fate := Empty, 0, [], [], Alive;
    }

    function View(): Logger
      reads this
    {
      Logger(instance, firstMessage, setFirst, saveFirst, hook, hookCalls, hooksRun, given, fate)
    }

    method InitializeLogging(worker: Option<nat>)
      requires fate.Alive?
      modifies this
      ensures View() == Do(old(View()), Initialize(worker))
    {
      if instance.Some? || worker.None? {
        fate := ExitFailure;
        return;
      }
      if !saveFirst {
        saveFirst := true;
        if firstMessage.Some? {
          given := given + [Kept(worker.value, firstMessage.value)];
          firstMessage := None;
        }
      }
      instance := worker;
      var _ := SetFatalPreLoggingHook(Nothing);
      hookCalls := 0;
    }

    method SetFatalPreLoggingHook(newHook: Hook) returns (previous: Hook)
      modifies this`hook
      ensures hook == newHook && previous == old(hook)
    {
      previous := hook;
      hook := newHook;
    }

    method PushMessageToLogger(text: string)
      requires fate.Alive?
      modifies this
      ensures View() == Do(old(View()), Log(text))
    {
      hide Uninitialized;
      if instance.None? {
        if !setFirst {
          setFirst := true;
          firstMessage := Some(Uninitialized(text));
        }
        return;
      }
      given := given + [Logged(instance.value, text)];
    }

    method SaveFatal(text: string, caught: bool)
      requires fate.Alive?
      modifies this
      ensures View() == Do(old(View()), LogFatal(text, caught))
    {
      var fatalhook := SetFatalPreLoggingHook(Nothing);
      hookCalls := hookCalls + 1;
      match fatalhook {
        case Empty =>
          if !caught { fate := UncaughtException; }
          return;
        case Nothing =>
        case Client(id) => hooksRun := hooksRun + [id];
      }
      if instance.None? {
        fate := DefaultSignal;
        return;
      }
      given := given + [Fatal(instance.value, text, hookCalls > 1)];
    }

    method ShutDownLogging()
      requires fate.Alive?
      modifies this
      ensures View() == Do(old(View()), Shutdown)
    {
      instance := None;
    }

    method ShutDownLoggingForActiveOnly(active: Option<nat>) returns (ok: bool)
      requires fate.Alive?
      modifies this
      ensures View() == Do(old(View()), ShutdownActive(active))
      ensures ok <==> old(instance) == None || active == None || active == old(instance)
    {
      if instance.Some? && active.Some? && active != instance {
        PushMessageToLogger(WARNING);
        return false;
      }
      ShutDownLogging();
      return true;
    }
  }
}
