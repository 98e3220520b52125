/** Who handles which signal. The handler saves the action it replaces and puts it
    back; whatever is installed, overridden and restored in between, no signal keeps
    a stale handler and no original action is lost. */
module CrashHandler {

  /** What a signal triggers: this program's own handler, or some other action. */
  datatype Action = Ours | Other(id: nat)

  /** The signals to handle, the saved actions, and the operating system's table.
      Only the catchable signals can be given another action. */
  datatype Signals = Signals(wanted: map<int, string>, saved: map<int, Action>,
                             table: map<int, Action>, catchable: set<int>)

  const SIGILL := 4
  const SIGABRT := 6
  const SIGFPE := 8
  const SIGSEGV := 11
  const SIGTERM := 15

  function DefaultSignals(): map<int, string>
  {
    map[SIGABRT := "SIGABRT", SIGFPE := "SIGFPE", SIGILL := "SIGILL",
        SIGSEGV := "SIGSEGV", SIGTERM := "SIGTERM"]
  }

  /** Every catchable signal has an action, none of them ours before the start. */
  predicate Untouched(original: map<int, Action>, catchable: set<int>)
  {
    catchable <= original.Keys && Ours !in original.Values
  }

  function Before(original: map<int, Action>, catchable: set<int>): Signals
  {
    Signals(DefaultSignals(), map[], original, catchable)
  }

  /** The signals that an installation hooks. */
  function Hooked(st: Signals): set<int> { st.wanted.Keys * st.catchable }

  function Actions(table: map<int, Action>, keys: set<int>): map<int, Action>
    requires keys <= table.Keys
  {
    map s | s in keys :: table[s]
  }

  function Handlers(keys: set<int>): map<int, Action> { map s | s in keys :: Ours }

  /** The handler installed for the hooked signals among some. */
  function InstallSet(st: Signals, some: set<int>): Signals
    requires st.catchable <= st.table.Keys
  {
    st.(saved := st.saved + Actions(st.table, Hooked(st) * some),
        table := st.table + Handlers(Hooked(st) * some))
  }

  function Install(st: Signals): Signals
    requires st.catchable <= st.table.Keys
  {
    InstallSet(st, st.wanted.Keys)
  }

  function Restore(st: Signals, s: int): Signals
  {
    if s !in st.saved then st
    else st.(saved := st.saved - {s},
             table := if s in st.catchable then st.table[s := st.saved[s]] else st.table)
  }

  /** All signals of a set put back. */
  function RestoreSet(st: Signals, todo: set<int>): Signals
  {
    st.(saved := st.saved - todo,
        table := st.table + map s | s in todo && s in st.saved && s in st.catchable :: st.saved[s])
  }

  function Override(st: Signals, wanted: map<int, string>): Signals
    requires st.catchable <= st.table.Keys
  {
    var t := RestoreSet(st, st.wanted.Keys);
    if st.wanted == wanted then t else Install(t.(wanted := wanted))
  }

  // ---------------------------------------------------------------- conservation

  /** Our handler sits on exactly the signals with a saved action; these are
      wanted, their saved action is the original one, and every other signal still
      has its original action. */
  predicate Conserved(st: Signals, original: map<int, Action>)
  {
    && st.saved.Keys <= Hooked(st)
    && st.table.Keys == original.Keys
    && forall s <- original ::
         if s in st.saved then st.table[s] == Ours && st.saved[s] == original[s]
         else st.table[s] == original[s]
  }

  /** Installing keeps this exactly if no signal is hooked twice. */
  lemma InstallConserves(st: Signals, original: map<int, Action>)
    requires Untouched(original, st.catchable) && Conserved(st, original)
    ensures Conserved(Install(st), original) <==> forall s <- Hooked(st) :: s !in st.saved
    ensures Conserved(Install(st), original) ==> Install(st).saved.Keys == Hooked(st)
  {
    var t := Install(st);
    assert forall s <- original :: original[s] in original.Values;
    if s :| s in Hooked(st) && s in st.saved {
      assert t.saved[s] == Ours && s in original;
    } else {
      assert t.table.Keys == original.Keys;
      assert t.saved.Keys == Hooked(st);
      forall s <- original
        ensures if s in t.saved then t.table[s] == Ours && t.saved[s] == original[s]
                else t.table[s] == original[s] {
        if s in Hooked(st) { assert s !in st.saved; }
      }
    }
  }

  /** What goes wrong otherwise: a signal hooked twice gets our handler back when
      it is restored, so raising it again enters the handler again. */
  lemma HookedTwiceSticks(st: Signals, original: map<int, Action>, s: int)
    requires Untouched(original, st.catchable) && Conserved(st, original)
    requires s in Hooked(st) && s in st.saved
    ensures Restore(Install(st), s).table[s] == Ours && s !in Restore(Install(st), s).saved
  {
    assert s in original;
  }

  lemma RestoreConserves(st: Signals, original: map<int, Action>, s: int)
    requires Untouched(original, st.catchable) && Conserved(st, original)
    ensures Conserved(Restore(st, s), original)
    ensures s in original ==> Restore(st, s).table[s] == original[s]
    ensures forall r <- st.table | r != s :: Restore(st, s).table[r] == st.table[r]
    ensures Restore(st, s).saved.Keys == st.saved.Keys - {s} && Restore(st, s).wanted == st.wanted
  {
    if s in st.saved { assert s in Hooked(st); }
  }

  lemma RestoreSetConserves(st: Signals, original: map<int, Action>)
    requires Untouched(original, st.catchable) && Conserved(st, original)
    ensures RestoreSet(st, st.wanted.Keys).saved == map[]
    ensures RestoreSet(st, st.wanted.Keys).table == original
  {
    var t := RestoreSet(st, st.wanted.Keys);
    forall s <- original ensures s in t.table && t.table[s] == original[s] {
      if s in st.saved { assert s in Hooked(st); }
    }
    forall s <- t.table ensures s in original {}
  }

  lemma OverrideConserves(st: Signals, original: map<int, Action>, wanted: map<int, string>)
    requires Untouched(original, st.catchable) && Conserved(st, original)
    ensures Conserved(Override(st, wanted), original)
    ensures Override(st, wanted).wanted == wanted
    ensures Override(st, wanted).saved.Keys
            == if wanted == st.wanted then {} else wanted.Keys * st.catchable
  {
    RestoreSetConserves(st, original);
    var t := RestoreSet(st, st.wanted.Keys).(wanted := wanted);
    assert Conserved(t, original);
    InstallConserves(t, original);
  }

  /** Installed at the start, our handler sits on exactly five signals: abort, floating
      point, illegal instruction, segmentation fault and termination. */
  lemma DefaultsHooked(original: map<int, Action>, catchable: set<int>)
    requires Untouched(original, catchable) && {4, 6, 8, 11, 15} <= catchable
    ensures var st := Install(Before(original, catchable));
            forall s <- original :: st.table[s] == Ours <==> s == 4 || s == 6 || s == 8 || s == 11 || s == 15
  {
    InstallConserves(Before(original, catchable), original);
    assert forall s <- original :: original[s] in original.Values;
  }

  /** After an override with other signals our handler sits on exactly those that can be
      caught; after one with the same it sits nowhere. */
  lemma OverrideHooks(st: Signals, original: map<int, Action>, wanted: map<int, string>)
    requires Untouched(original, st.catchable) && Conserved(st, original)
    ensures forall s <- original ::
              Override(st, wanted).table[s] == Ours <==> wanted != st.wanted && s in wanted && s in st.catchable
  {
    OverrideConserves(st, original, wanted);
    assert forall s <- original :: original[s] in original.Values;
  }

  // ---------------------------------------------------------------- whole runs

  datatype Call = OverrideSetup(wanted: map<int, string>) | RestoreOne(signal: int) | RestoreToDefault

  function Do(st: Signals, call: Call): Signals
    requires st.catchable <= st.table.Keys
  {
    match call
    case OverrideSetup(wanted) => Override(st, wanted)
    case RestoreOne(s) => Restore(st, s)
    case RestoreToDefault => Override(st, st.wanted)
  }

  ghost predicate Run(st: Signals, calls: seq<Call>, end: Signals)
    decreases |calls|
  {
    if calls == [] then end == st
    else st.catchable <= st.table.Keys && Run(Do(st, calls[0]), calls[1..], end)
  }

  lemma {:induction false} RunConserves(st: Signals, calls: seq<Call>, end: Signals, original: map<int, Action>)
    requires Untouched(original, st.catchable) && Conserved(st, original) && Run(st, calls, end)
    ensures Conserved(end, original)
    decreases |calls|
  {
    if calls != [] {
      var t := Do(st, calls[0]);
      match calls[0] {
        case OverrideSetup(wanted) => OverrideConserves(st, original, wanted);
        case RestoreOne(s) => RestoreConserves(st, original, s);
        case RestoreToDefault => OverrideConserves(st, original, st.wanted);
      }
      RunConserves(t, calls[1..], end, original);
    }
  }

  /** After one installation and any further calls: conserved; and the last call
      before a fatal signal is raised again leaves no handler of ours behind. */
  lemma SignalsConserved(original: map<int, Action>, catchable: set<int>, calls: seq<Call>, end: Signals)
    requires Untouched(original, catchable)
    requires Run(Install(Before(original, catchable)), calls, end)
    ensures Conserved(end, original)
    ensures calls != [] && calls[|calls| - 1] == RestoreToDefault ==>
              end.table == original && end.saved == map[]
  {
    var start := Before(original, catchable);
    InstallConserves(start, original);
    RunConserves(Install(start), calls, end, original);
    if calls != [] && calls[|calls| - 1] == RestoreToDefault {
      LastRestores(Install(start), calls, end, original);
    }
  }

  lemma {:induction false} LastRestores(st: Signals, calls: seq<Call>, end: Signals, original: map<int, Action>)
    requires Untouched(original, st.catchable) && Conserved(st, original) && Run(st, calls, end)
    requires calls != [] && calls[|calls| - 1] == RestoreToDefault
    ensures end.table == original && end.saved == map[]
    decreases |calls|
  {
    if |calls| == 1 {
      RestoreSetConserves(st, original);
      assert Run(Do(st, calls[0]), [], end) by { assert calls[1..] == []; }
    } else {
      RunConserves(st, [calls[0]], Do(st, calls[0]), original);
      LastRestores(Do(st, calls[0]), calls[1..], end, original);
    }
  }

  lemma SomeKey(keys: set<int>)
    ensures keys == {} || exists s :: s in keys
  {
    if forall s :: s !in keys { assert keys == {}; }
  }

  // ---------------------------------------------------------------- one signal at a time

  function HookOne(st: Signals, s: int): Signals
    requires st.catchable <= st.table.Keys
  {
    if s in st.catchable then st.(saved := st.saved[s := st.table[s]], table := st.table[s := Ours])
    else st
  }

  lemma InstallNone(st: Signals)
    requires st.catchable <= st.table.Keys
    ensures InstallSet(st, {}) == st
  {
    assert InstallSet(st, {}).saved == st.saved && InstallSet(st, {}).table == st.table;
  }

  lemma InstallStep(st: Signals, done: set<int>, s: int)
    requires st.catchable <= st.table.Keys && s in st.wanted && s !in done
    ensures InstallSet(st, done).catchable <= InstallSet(st, done).table.Keys
    ensures InstallSet(st, done + {s}) == HookOne(InstallSet(st, done), s)
  {
    hide Actions, Handlers;
    if s in st.catchable {
      assert Hooked(st) * (done + {s}) == Hooked(st) * done + {s};
      OneMore(st.table, Hooked(st) * done, s);
    } else {
      assert Hooked(st) * (done + {s}) == Hooked(st) * done;
    }
  }

  lemma OneMore(table: map<int, Action>, keys: set<int>, s: int)
    requires keys <= table.Keys && s in table && s !in keys
    ensures forall m: map<int, Action> ::
              m + Actions(table, keys + {s}) == (m + Actions(table, keys))[s := table[s]]
    ensures table + Handlers(keys + {s}) == (table + Handlers(keys))[s := Ours]
    ensures (table + Handlers(keys))[s] == table[s]
  {
    assert Actions(table, keys + {s}) == Actions(table, keys)[s := table[s]];
    assert Handlers(keys + {s}) == Handlers(keys)[s := Ours];
  }

  lemma RestoreNone(st: Signals)
    ensures RestoreSet(st, {}) == st
  {
    assert RestoreSet(st, {}).saved == st.saved && RestoreSet(st, {}).table == st.table;
  }

  lemma RestoreStep(st: Signals, done: set<int>, s: int)
    requires st.catchable <= st.table.Keys && s !in done
    ensures st.catchable <= Restore(RestoreSet(st, done), s).table.Keys
    ensures RestoreSet(st, done + {s}) == Restore(RestoreSet(st, done), s)
  {
    assert RestoreSet(st, done + {s}).saved == Restore(RestoreSet(st, done), s).saved;
    assert RestoreSet(st, done + {s}).table == Restore(RestoreSet(st, done), s).table;
  }

  // ---------------------------------------------------------------- the globals

  class Globals {
    var gSignals: map<int, string>
    var gSavedSigActions: map<int, Action>
    /** The operating system's side. */
    var table: map<int, Action>
    const catchable: set<int>

    constructor (original: map<int, Action>, catchable: set<int>)
      ensures View() == Before(original, catchable)
    {
      gSignals, gSavedSigActions := DefaultSignals(), map[];
      table := original;
      this.catchable := catchable;
    }

    function View(): Signals
      reads this
    {
      Signals(gSignals, gSavedSigActions, table, catchable)
    }

    /** Gives a signal another action; the old one is returned on success. */
    method Sigaction(s: int, action: Action) returns (old_action: Action, ok: bool)
      requires catchable <= table.Keys
      modifies this`table
      ensures ok == (s in catchable)
      ensures ok ==> old_action == old(table)[s] && table == old(table)[s := action]
      ensures !ok ==> table == old(table)
    {
      if s !in catchable { return Ours, false; }
      old_action, ok := table[s], true;
      table := table[s := action];
    }

    method InstallOne(s: int)
      requires catchable <= table.Keys && s in gSignals
      modifies this`table, this`gSavedSigActions
      ensures View() == HookOne(old(View()), s)
    {
      var old_action, ok := Sigaction(s, Ours);
      if ok { gSavedSigActions := gSavedSigActions[s := old_action]; }
    }

    method InstallSignalHandler()
      requires catchable <= table.Keys
      modifies this`table, this`gSavedSigActions
      ensures View() == Install(old(View()))
    {
      hide InstallSet, HookOne;
      var todo := gSignals.Keys;
      InstallNone(View());
      assert gSignals.Keys - todo == {};
      while todo != {}
        invariant todo <= gSignals.Keys && catchable <= old(table).Keys
        invariant View() == InstallSet(old(View()), gSignals.Keys - todo)
        decreases todo
      {
        SomeKey(todo);
        var s :| s in todo;
        InstallStep(old(View()), gSignals.Keys - todo, s);
        assert gSignals.Keys - (todo - {s}) == (gSignals.Keys - todo) + {s};
        InstallOne(s);
        todo := todo - {s};
      }
      assert gSignals.Keys - todo == gSignals.Keys;
    }

    method RestoreSignalHandler(s: int)
      requires catchable <= table.Keys
      modifies this`table, this`gSavedSigActions
      ensures View() == Restore(old(View()), s)
    {
      if s !in gSavedSigActions { return; }
      var _, _ := Sigaction(s, gSavedSigActions[s]);
      gSavedSigActions := gSavedSigActions - {s};
    }

    method OverrideSetupSignals(signals: map<int, string>)
      requires catchable <= table.Keys
      modifies this
      ensures View() == Override(old(View()), signals)
    {
      hide InstallSet, RestoreSet, Restore;
      var todo := gSignals.Keys;
      RestoreNone(View());
      assert gSignals.Keys - todo == {};
      while todo != {}
        invariant gSignals == old(gSignals) && todo <= gSignals.Keys && catchable <= table.Keys
        invariant View() == RestoreSet(old(View()), gSignals.Keys - todo)
        decreases todo
      {
        SomeKey(todo);
        var s :| s in todo;
        RestoreStep(old(View()), gSignals.Keys - todo, s);
        assert gSignals.Keys - (todo - {s}) == (gSignals.Keys - todo) + {s};
        RestoreSignalHandler(s);
        todo := todo - {s};
      }
      assert gSignals.Keys - todo == gSignals.Keys;
      if gSignals == signals { return; }
      gSignals := signals;
      InstallSignalHandler();
    }

    method RestoreFatalHandlingToDefault(ghost original: map<int, Action>)
      requires Untouched(original, catchable) && Conserved(View(), original)
      modifies this
      ensures table == original && gSavedSigActions == map[] && gSignals == old(gSignals)
    {
      RestoreSetConserves(View(), original);
      OverrideSetupSignals(gSignals);
    }
  }
}
