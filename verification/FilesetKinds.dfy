/** Files and leaf directories of one fileset together.  Each kind has its own three trees, idle count
    and rotors, under the same lock; leaf directories are picked and unbusied, never grabbed. */
module FilesetKinds {
  import opened Wrappers
  import Runs
  import opened FilesetState
  import opened FilesetProtocol

  datatype Both = Both(files: State, leafs: State)

  datatype Move = OnFiles(a: Action) | OnLeafs(a: Action)

  ghost predicate CanStep(s: Both, t: Move) {
    match t
    case OnFiles(a) => Enabled(s.files, a)
    case OnLeafs(a) => !a.DoGrab? && Enabled(s.leafs, a)
  }

  ghost function Stepped(s: Both, t: Move): Both
    requires CanStep(s, t)
  {
    match t
    case OnFiles(a) => s.(files := Apply(s.files, a))
    case OnLeafs(a) => s.(leafs := Apply(s.leafs, a))
  }

  ghost function StepBoth(s: Both, t: Move): Option<Both> {
    if CanStep(s, t) then Some(Stepped(s, t)) else None
  }

  ghost predicate CanRun(s: Both, run: seq<Move>) {
    Runs.Possible(StepBoth, s, run)
  }

  ghost function Ran(s: Both, run: seq<Move>): Both
    requires CanRun(s, run)
  {
    Runs.After(StepBoth, s, run)
  }

  /** The steps that a run takes on files, and on leaf directories. */
  function FileSteps(run: seq<Move>): seq<Action> {
    if run == [] then [] else (if run[0].OnFiles? then [run[0].a] else []) + FileSteps(run[1..])
  }

  function LeafSteps(run: seq<Move>): seq<Action> {
    if run == [] then [] else (if run[0].OnLeafs? then [run[0].a] else []) + LeafSteps(run[1..])
  }

  /** The kinds do not interfere: each sees a run of its own steps. */
  lemma {:induction false} Projects(s: Both, run: seq<Move>)
    requires CanRun(s, run)
    ensures Possible(s.files, FileSteps(run)) && After(s.files, FileSteps(run)) == Ran(s, run).files
    ensures Possible(s.leafs, LeafSteps(run)) && After(s.leafs, LeafSteps(run)) == Ran(s, run).leafs
    ensures UncountedIn(s.leafs, LeafSteps(run)) == 0
    decreases |run|
  {
    if run != [] {
      hide Apply, Enabled;
      Projects(Stepped(s, run[0]), run[1..]);
      var fs, ls := FileSteps(run), LeafSteps(run);
      assert run[0].OnFiles? ==> fs[0] == run[0].a && fs[1..] == FileSteps(run[1..]) && ls == LeafSteps(run[1..]);
      assert run[0].OnLeafs? ==> ls[0] == run[0].a && ls[1..] == LeafSteps(run[1..]) && fs == FileSteps(run[1..]);
    }
  }

  /** In every run of both kinds from a freshly populated fileset: every file and every leaf directory
      is in exactly the tree its flags name and has one holder if it is busy, no sleeper's wakeup is
      lost, and the idle count of leaf directories is exactly the number of idle ones. */
  lemma {:induction false} Safety(s: Both, run: seq<Move>)
    requires Initial(s.files) && Initial(s.leafs) && CanRun(s, run)
    ensures var e := Ran(s, run);
      && Homed(e.files.f) && Owned(e.files) && NoLostWakeup(e.files) && |Idle(e.files.f)| <= e.files.f.idle
      && Homed(e.leafs.f) && Owned(e.leafs) && NoLostWakeup(e.leafs) && |Idle(e.leafs.f)| == e.leafs.f.idle
  {
    hide Homed, Owned, NoLostWakeup, Initial, Possible, After, UncountedIn;
    Projects(s, run);
    FilesetProtocol.Safety(s.files, FileSteps(run));
    FilesetProtocol.Safety(s.leafs, LeafSteps(run));
  }
}
