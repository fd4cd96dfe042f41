/** Any number of threads picking, unbusying, deleting and closing files of one fileset.  Each step
    is one critical section under fs_pick_lock; a thread that waits releases the lock and sleeps. */
module FilesetProtocol {
  import opened Wrappers
  import Runs
  import opened FilesetState

  /** Where a thread is with respect to the fileset. */
  datatype Phase =
    | Running
    | Holding(x: int)               // has made x busy and will call fileset_unbusy on it
    | AsleepIdle(req: Request)      // in fileset_pick, on fs_idle_files_cv
    | AsleepBusy(x: int, k: Kind)   // in deletefile or closefile, on fs_thrd_wait_cv
    | Woken(x: int, k: Kind)        // off fs_thrd_wait_cv, about to test FSE_BUSY again

  /** `drift` counts the closes so far that took an entry without counting it out of the idle files. */
  datatype State = State(f: Files, threads: map<int, Phase>, drift: int)

  datatype Action =
    | DoPick(t: int, req: Request)
    | DoUnbusy(t: int, update: bool, nowExists: bool, incr: int)
    | DoGrab(t: int, x: int, k: Kind)
    | Wakeup(t: int)                // a return from pthread_cond_wait nobody asked for

  ghost predicate Enabled(s: State, a: Action) {
    a.t in s.threads &&
    match a
    case DoPick(t, req) => s.threads[t] == Running || s.threads[t] == AsleepIdle(req)
    case DoUnbusy(t, _, _, _) => s.threads[t].Holding? && s.threads[t].x in s.f.entries
    case DoGrab(t, x, k) => x in s.f.entries && (s.threads[t] == Running || s.threads[t] == Woken(x, k))
    case Wakeup(t) => s.threads[t].AsleepBusy?
  }

  function Wake(p: Phase): Phase {
    if p.AsleepBusy? then Woken(p.x, p.k) else p
  }

  function WakeAll(threads: map<int, Phase>): map<int, Phase> {
    map t | t in threads :: Wake(threads[t])
  }

  /** A close that finds an open count other than one takes the entry but leaves the idle count. */
  predicate Uncounted(s: State, a: Action) {
    && a.DoGrab? && a.k.Close? && a.x in s.f.entries
    && !s.f.entries[a.x].busy && s.f.entries[a.x].openCnt != 1
  }

  ghost function Apply(s: State, a: Action): State
    requires Enabled(s, a)
  {
    match a
    case DoPick(t, req) =>
      var (g, r) := Pick(s.f, req);
      State(g, s.threads[t := match r
                              case Waits => AsleepIdle(req)
                              case Nothing => Running
                              case Picked(x) => Holding(x)], s.drift)
    case DoUnbusy(t, update, nowExists, incr) =>
      var (g, wake) := Unbusy(s.f, s.threads[t].x, update, nowExists, incr);
      State(g, (if wake then WakeAll(s.threads) else s.threads)[t := Running], s.drift)
    case DoGrab(t, x, k) =>
      var (g, r) := Grab(s.f, x, k);
      State(g, s.threads[t := if r.Waits? then AsleepBusy(x, k) else Holding(x)],
            s.drift + if Uncounted(s, a) then 1 else 0)
    case Wakeup(t) => s.(threads := s.threads[t := Wake(s.threads[t])])
  }

  /** Every busy entry has exactly one holder, and holders hold busy entries. */
  ghost predicate Owned(s: State) {
    && (forall t | t in s.threads && s.threads[t].Holding? ::
          s.threads[t].x in s.f.entries && s.f.entries[s.threads[t].x].busy)
    && (forall t, u | t in s.threads && u in s.threads && s.threads[t].Holding? && s.threads[u].Holding?
          && s.threads[t].x == s.threads[u].x :: t == u)
    && (forall x | x in s.f.entries && s.f.entries[x].busy :: exists t :: t in s.threads && s.threads[t] == Holding(x))
  }

  /** No wakeup is lost: whoever sleeps until an entry is idle sleeps on an entry that is busy and
      marked as waited for. */
  ghost predicate NoLostWakeup(s: State) {
    forall t | t in s.threads && s.threads[t].AsleepBusy? ::
      var x := s.threads[t].x; x in s.f.entries && s.f.entries[x].busy && s.f.entries[x].waiting
  }

  /** The idle count is the number of idle files plus the closes that were not counted. */
  ghost predicate Counted(s: State) {
    s.f.idle == |Idle(s.f)| + s.drift && 0 <= s.drift
  }

  ghost predicate Inv(s: State) {
    Homed(s.f) && Owned(s) && NoLostWakeup(s) && Counted(s)
  }

  /** What a pick changes, rotors aside: an idle entry becomes busy, or nothing does. */
  lemma PickEffect(f: Files, req: Request)
    requires Homed(f)
    ensures var (g, r) := Pick(f, req);
      && g.free == f.free && g.exist == f.exist && g.noex == f.noex
      && (if r.Picked? then r.x in f.entries && !f.entries[r.x].busy && g.entries == MarkBusy(f, r.x).entries
                            && g.idle == f.idle - 1
          else g.entries == f.entries && g.idle == f.idle)
  {
  }

  lemma UnbusyHomed(f: Files, x: int, update: bool, nowExists: bool, incr: int)
    requires Homed(f) && x in f.entries
    ensures Homed(Unbusy(f, x, update, nowExists, incr).0)
  {
  }

  lemma HomedStep(s: State, a: Action)
    requires Inv(s) && Enabled(s, a)
    ensures Homed(Apply(s, a).f)
  {
    hide Pick, Unbusy;
    match a {
      case DoPick(t, req) => PickEffect(s.f, req);
      case DoUnbusy(t, update, nowExists, incr) =>
        UnbusyHomed(s.f, s.threads[t].x, update, nowExists, incr);
        hide Homed;
      case DoGrab(t, x, k) => GrabHomed(s.f, x, k);
      case Wakeup(_) =>
    }
  }

  lemma GrabHomed(f: Files, x: int, k: Kind)
    requires Homed(f) && x in f.entries
    ensures Homed(Grab(f, x, k).0)
  {
  }

  lemma IdleTaken(f: Files, g: Files, x: int)
    requires x in f.entries && !f.entries[x].busy && g.entries == MarkBusy(f, x).entries
    ensures Idle(g) == Idle(f) - {x} && x in Idle(f)
  {
    assert forall y | y in f.entries :: y in Idle(g) <==> y in Idle(f) - {x};
  }

  lemma IdleReturned(f: Files, x: int, update: bool, nowExists: bool, incr: int)
    requires x in f.entries && f.entries[x].busy
    ensures Idle(Unbusy(f, x, update, nowExists, incr).0) == Idle(f) + {x} && x !in Idle(f)
  {
  }

  /** Which entry a step makes busy or idle. */
  lemma IdleStep(s: State, a: Action)
    requires Inv(s) && Enabled(s, a)
    ensures var f, g, p := s.f, Apply(s, a).f, Apply(s, a).threads[a.t];
      match a
      case DoUnbusy(t, _, _, _) => Idle(g) == Idle(f) + {s.threads[t].x} && s.threads[t].x !in Idle(f)
      case Wakeup(_) => Idle(g) == Idle(f)
      case _ => if p.Holding? then Idle(g) == Idle(f) - {p.x} && p.x in Idle(f) else Idle(g) == Idle(f)
  {
    hide Pick, Unbusy;
    match a {
      case DoPick(t, req) =>
        PickEffect(s.f, req);
        if Pick(s.f, req).1.Picked? {
          IdleTaken(s.f, Pick(s.f, req).0, Pick(s.f, req).1.x);
        }
      case DoUnbusy(t, update, nowExists, incr) => IdleReturned(s.f, s.threads[t].x, update, nowExists, incr);
      case DoGrab(t, x, k) =>
        if !s.f.entries[x].busy {
          IdleTaken(s.f, Grab(s.f, x, k).0, x);
        }
      case Wakeup(_) =>
    }
  }

  /** Which entries are busy, and who holds what, after a step. */
  lemma BusyStep(s: State, a: Action)
    requires Inv(s) && Enabled(s, a)
    ensures a.t in s.threads
    ensures var s' := Apply(s, a); var p, q := s.threads[a.t], s'.threads[a.t];
      && s'.threads.Keys == s.threads.Keys && s'.f.entries.Keys == s.f.entries.Keys
      && (forall u | u in s.threads && u != a.t :: s'.threads[u].Holding? <==> s.threads[u].Holding?)
      && (forall u | u in s.threads && u != a.t && s.threads[u].Holding? :: s'.threads[u] == s.threads[u])
      && (q.Holding? ==> q.x in s.f.entries && !p.Holding? && !s.f.entries[q.x].busy && s'.f.entries[q.x].busy)
      && (p.Holding? && !q.Holding? ==> !s'.f.entries[p.x].busy)
      && (forall x | x in s.f.entries && q != Holding(x) && p != Holding(x) ::
            s'.f.entries[x].busy == s.f.entries[x].busy)
  {
    hide Pick;
    match a {
      case DoPick(t, req) =>
        PickEffect(s.f, req);
        var (g, r) := Pick(s.f, req);
        if r.Picked? {
          assert Apply(s, a).threads[t] == Holding(r.x);
        }
      case _ =>
    }
  }

  lemma OwnedStep(s: State, a: Action)
    requires Inv(s) && Enabled(s, a)
    ensures Owned(Apply(s, a))
  {
    hide Apply, Enabled, Homed, Counted, NoLostWakeup;
    BusyStep(s, a);
    var s' := Apply(s, a);
    forall x | x in s'.f.entries && s'.f.entries[x].busy
      ensures exists t :: t in s'.threads && s'.threads[t] == Holding(x)
    {
      if s'.threads[a.t] != Holding(x) {
        assert s.f.entries[x].busy;
        var u :| u in s.threads && s.threads[u] == Holding(x);
        assert u in s'.threads && s'.threads[u] == Holding(x);
      }
    }
  }

  lemma NoLostWakeupStep(s: State, a: Action)
    requires Inv(s) && Enabled(s, a)
    ensures NoLostWakeup(Apply(s, a))
  {
  }

  lemma CountedStep(s: State, a: Action)
    requires Inv(s) && Enabled(s, a)
    ensures Counted(Apply(s, a))
  {
    IdleStep(s, a);
  }

  /** Every step of every thread keeps the invariant. */
  lemma InvStep(s: State, a: Action)
    requires Inv(s) && Enabled(s, a)
    ensures Inv(Apply(s, a))
  {
    HomedStep(s, a);
    OwnedStep(s, a);
    NoLostWakeupStep(s, a);
    CountedStep(s, a);
  }

  /** A freshly populated fileset: all files free and idle, no thread doing anything. */
  ghost predicate Initial(s: State) {
    && Homed(s.f) && s.drift == 0 && s.f.idle == |s.f.entries.Keys|
    && (forall x | x in s.f.entries :: s.f.entries[x] == Entry(true, false, false, false, 0))
    && (forall t | t in s.threads :: s.threads[t] == Running)
  }

  ghost function Step(s: State, a: Action): Option<State> {
    if Enabled(s, a) then Some(Apply(s, a)) else None
  }

  ghost predicate Possible(s: State, run: seq<Action>) {
    Runs.Possible(Step, s, run)
  }

  ghost function After(s: State, run: seq<Action>): State
    requires Possible(s, run)
  {
    Runs.After(Step, s, run)
  }

  ghost function UncountedIn(s: State, run: seq<Action>): nat
    requires Possible(s, run)
    decreases |run|
  {
    if run == [] then 0
    else (if Uncounted(s, run[0]) then 1 else 0) + UncountedIn(Apply(s, run[0]), run[1..])
  }

  lemma RunKeepsInv(s: State, run: seq<Action>)
    requires Inv(s) && Possible(s, run)
    ensures Inv(After(s, run))
  {
    forall t, a | Inv(t) && Step(t, a).Some? ensures Inv(Step(t, a).value) {
      InvStep(t, a);
    }
    Runs.Keeps(Step, t => Inv(t), _ => true, s, run);
  }

  lemma {:induction false} DriftCounts(s: State, run: seq<Action>)
    requires Possible(s, run)
    ensures After(s, run).drift == s.drift + UncountedIn(s, run)
    decreases |run|
  {
    if run != [] {
      DriftCounts(Apply(s, run[0]), run[1..]);
    }
  }

  /** The sum of the open-count increments with which entry `x` was unbusied in a run. */
  ghost function Increments(s: State, run: seq<Action>, x: int): int
    requires Possible(s, run)
    decreases |run|
  {
    if run == [] then 0
    else
      var a := run[0];
      (if a.DoUnbusy? && s.threads[a.t].x == x then a.incr else 0) + Increments(Apply(s, a), run[1..], x)
  }

  lemma OpenStep(s: State, a: Action, x: int)
    requires Homed(s.f) && Enabled(s, a) && x in s.f.entries
    ensures var g, more := Apply(s, a).f, if a.DoUnbusy? && s.threads[a.t].x == x then a.incr else 0;
      x in g.entries && g.entries[x].openCnt == s.f.entries[x].openCnt + more
  {
    hide Homed, Pick;
    match a {
      case DoPick(t, req) => PickEffect(s.f, req);
      case _ =>
    }
  }

  /** The open count of an entry has grown by exactly the increments it was unbusied with. */
  lemma {:induction false} OpenCounts(s: State, run: seq<Action>, x: int)
    requires Inv(s) && Possible(s, run) && x in s.f.entries
    ensures x in After(s, run).f.entries
    ensures After(s, run).f.entries[x].openCnt == s.f.entries[x].openCnt + Increments(s, run, x)
    decreases |run|
  {
    hide Apply, Enabled, Inv;
    if run != [] {
      InvHomed(s);
      OpenStep(s, run[0], x);
      InvStep(s, run[0]);
      OpenCounts(Apply(s, run[0]), run[1..], x);
    }
  }

  lemma InvHomed(s: State)
    requires Inv(s)
    ensures Homed(s.f)
  {
  }

  lemma InitialInv(s: State)
    requires Initial(s)
    ensures Inv(s)
  {
    assert forall x | x in s.f.entries :: x in Idle(s.f);
    assert s.f.entries.Keys <= Idle(s.f);
    assert Idle(s.f) == s.f.entries.Keys;
  }

  /** In every run from a freshly populated fileset: each file is in exactly the tree its flags name,
      each busy file has exactly one holder, no sleeper's wakeup is lost, and fs_idle_files is the
      number of idle files plus the closes that found an open count other than one.  So it is never
      negative and never below the number of idle files, and equals it exactly if there was no such
      close. */
  lemma Safety(s: State, run: seq<Action>)
    requires Initial(s) && Possible(s, run)
    ensures var e := After(s, run);
      && Homed(e.f) && Owned(e) && NoLostWakeup(e)
      && e.f.idle == |Idle(e.f)| + UncountedIn(s, run)
      && (e.f.idle == |Idle(e.f)| <==> UncountedIn(s, run) == 0)
  {
    InitialInv(s);
    RunKeepsInv(s, run);
    DriftCounts(s, run);
  }

  /** One idle file and one thread. */
  function OneFile(): State {
    State(Files(map[0 := Entry(true, false, false, false, 0)], {0}, {}, {}, 1, 0, map[]), map[0 := Running], 0)
  }

  lemma OneMore(s: State, run: seq<Action>, a: Action)
    requires Possible(s, run) && Enabled(After(s, run), a)
    ensures Possible(s, run + [a]) && After(s, run + [a]) == Apply(After(s, run), a)
    ensures UncountedIn(s, run + [a]) == UncountedIn(s, run) + if Uncounted(After(s, run), a) then 1 else 0
  {
    hide UncountedIn;
    Runs.OneMore(Step, s, run, a);
    DriftCounts(s, run);
    DriftCounts(s, run + [a]);
  }

  lemma NoneYet(s: State)
    ensures Possible(s, []) && After(s, []) == s && UncountedIn(s, []) == 0
  {
  }

  /** The drift happens: a file opened twice and closed once is busy, yet still counted as idle. */
  lemma DriftHappens() returns (run: seq<Action>)
    ensures var s := OneFile();
      && Initial(s) && Possible(s, run) && UncountedIn(s, run) == 1
      && After(s, run).f.idle == 1 && Idle(After(s, run).f) == {}
  {
    hide Possible, After, UncountedIn;
    var s := OneFile();
    NoneYet(s);
    run := OpenOnce(s, [], Unique(0), 0);
    run := OpenOnce(s, run, ByIndex(false, 0), 1);
    var a := DoGrab(0, 0, Close);
    OneMore(s, run, a);
    run := run + [a];
    assert After(s, run).f.entries.Keys == {0};
    assert Idle(After(s, run).f) <= {};
  }

  /** File 0 has been opened `n` times and is idle. */
  ghost predicate Opened(s: State, h: Home, n: int) {
    && s.threads == map[0 := Running] && s.f.idle == 1 && s.f.Tree(h) == {0}
    && s.f.entries == map[0 := Entry(h.Free?, h.Exist?, false, false, n)]
    && (h.Free? ==> s.f.exist == {} && s.f.noex == {})
  }

  /** The only thread picks file 0, opens it and unbusies it. */
  lemma OpenOnce(s: State, run: seq<Action>, req: Request, n: int) returns (run': seq<Action>)
    requires Possible(s, run) && Opened(After(s, run), req.Home(), n) && !req.Home().Noex?
    ensures Possible(s, run') && UncountedIn(s, run') == UncountedIn(s, run)
    ensures Opened(After(s, run'), Exist, n + 1)
  {
    hide Possible, After, UncountedIn, Pick;
    var t, update := After(s, run), req.Home().Free?;
    OnlyPick(t.f, req);
    OneMore(s, run, DoPick(0, req));
    var mid := run + [DoPick(0, req)];
    assert After(s, mid).threads == map[0 := Holding(0)];
    OneMore(s, mid, DoUnbusy(0, update, update, 1));
    run' := mid + [DoUnbusy(0, update, update, 1)];
    var e := After(s, run');
    assert e.threads == map[0 := Running];
    assert e.f.entries == map[0 := Entry(false, true, false, false, n + 1)];
    assert e.f.exist == {0};
  }

  lemma OnlyPick(f: Files, req: Request)
    requires f.entries.Keys == {0} && !f.entries[0].busy && f.idle == 1 && f.Tree(req.Home()) == {0}
    ensures var (g, r) := Pick(f, req);
      && r == Picked(0) && g.entries == MarkBusy(f, 0).entries && g.idle == 0
      && g.free == f.free && g.exist == f.exist && g.noex == f.noex
  {
    assert 0 in Idle(f) && {0} * Idle(f) == {0};
  }
}
