/** Parallel pre-allocation: fileset_createset going through the list of filesets, the two loops of
    fileset_create for each of them, the allocation threads, and the final wait.  Steps are critical
    sections under fs_pick_lock or shm_fsparalloc_lock; threads of earlier filesets may be at work
    while later ones are picked from. */
module Prealloc {
  import opened Wrappers
  import Runs
  import opened FilesetState
  import FilesetProtocol

  const MAX_PARALLOC_THREADS := 32

  /** One loop of fileset_create: the files of a fileset or, in the round after, its leaf directories.
      Raw devices are passed over. */
  datatype Round = Round(f: Files, leaf: bool, raw: bool)

  /** Where the thread that runs fileset_createset is. */
  datatype Main =
    | Entering               // about to start a round
    | Looping                // about to pick the next free entry
    | Deciding(x: int)       // has picked x
    | WantSlot(x: int)       // wants an allocation thread for x
    | Draining               // the list is done; waits for the allocation threads
    | Returned(ok: bool)

  /** What was decided about an entry and came of it. */
  datatype Fate = Skipped | Made | Failed

  /** `count` is shm_fsparalloc_count.  Allocation threads are at work on the entries `working`, each
      given by its round and index, or have unbusied their entry and are about to report success or
      failure.  The last four fields record what has happened: the entries picked so far, what became
      of those that were decided, whether a thread reported a failure, and whether the main thread
      itself failed. */
  datatype State = State(
    rounds: seq<Round>, cur: nat, main: Main, count: int,
    working: set<(int, int)>, okPending: nat, badPending: nat,
    decided: seq<(int, int)>, fate: map<(int, int), Fate>, failed: bool, broken: bool)
  {
    function Threads(): nat {
      |working| + okPending + badPending
    }
    predicate Here(k: int, x: int) {
      0 <= k < |rounds| && x in rounds[k].f.entries
    }
    function Put(k: int, g: Files): State
      requires 0 <= k < |rounds|
    {
      this.(rounds := rounds[k := rounds[k].(f := g)])
    }
  }

  datatype Action =
    | Enter(ok: bool)        // the round is passed over, fails to populate or to create, or starts
    | PickNext(index: int)
    | Skip
    | Allocate
    | Inline(ok: bool)       // the main thread allocates the file or makes the directory itself
    | TakeSlot
    | Finish(k: int, x: int, ok: bool)
    | Report(ok: bool)
    | EndOfList
    | Drain

  ghost predicate Enabled(s: State, a: Action) {
    match a
    case Enter(ok) =>
      s.main.Entering? && s.cur < |s.rounds| && (ok || (!s.rounds[s.cur].leaf && !s.rounds[s.cur].raw))
    case EndOfList => s.main.Entering? && s.cur == |s.rounds|
    case PickNext(_) => s.main.Looping? && s.cur < |s.rounds|
    case Skip => s.main.Deciding? && s.Here(s.cur, s.main.x)
    case Allocate => s.main.Deciding? && s.cur < |s.rounds| && !s.rounds[s.cur].leaf
    case Inline(_) => s.main.Deciding? && s.Here(s.cur, s.main.x)
    case TakeSlot => s.main.WantSlot? && s.count < MAX_PARALLOC_THREADS
    case Finish(k, x, _) => (k, x) in s.working && s.Here(k, x)
    case Report(ok) => 0 < if ok then s.okPending else s.badPending
    case Drain => s.main.Draining? && s.count <= 0
  }

  /** fileset_unbusy with the existence set or cleared. */
  function Settle(s: State, k: int, x: int, ok: bool): State
    requires s.Here(k, x)
  {
    s.Put(k, Unbusy(s.rounds[k].f, x, true, ok, 0).0)
  }

  ghost function Apply(s: State, a: Action): State
    requires Enabled(s, a)
  {
    match a
    case Enter(ok) =>
      if s.rounds[s.cur].raw then s.(cur := s.cur + 1)
      else if ok then s.(main := Looping)
      else s.(main := Returned(false), broken := true)
    case EndOfList => s.(main := Draining)
    case PickNext(index) =>
      var (g, r) := Pick(s.rounds[s.cur].f, Unique(index));
      (match r
       case Waits => s
       case Nothing => s.(cur := s.cur + 1, main := Entering)
       case Picked(x) => s.Put(s.cur, g).(main := Deciding(x), decided := s.decided + [(s.cur, x)]))
    case Skip => Settle(s, s.cur, s.main.x, false).(main := Looping, fate := s.fate[(s.cur, s.main.x) := Skipped])
    case Allocate => s.(main := WantSlot(s.main.x))
    case Inline(ok) =>
      Settle(s, s.cur, s.main.x, ok).(
        main := if ok then Looping else Returned(false), broken := !ok,
        fate := s.fate[(s.cur, s.main.x) := if ok then Made else Failed])
    case TakeSlot =>
      if s.count < 0 then s.(main := Returned(false))
      else s.(main := Looping, count := s.count + 1, working := s.working + {(s.cur, s.main.x)})
    case Finish(k, x, ok) =>
      Settle(s, k, x, ok).(
        working := s.working - {(k, x)}, fate := s.fate[(k, x) := if ok then Made else Failed],
        okPending := s.okPending + (if ok then 1 else 0), badPending := s.badPending + (if ok then 0 else 1))
    case Report(ok) =>
      if ok then s.(count := s.count - 1, okPending := s.okPending - 1)
      else s.(count := -1, badPending := s.badPending - 1, failed := true)
    case Drain => s.(main := Returned(0 <= s.count))
  }

  /** The entries not yet picked: free and not busy. */
  ghost predicate Untouched(f: Files, x: int)
    requires x in f.entries
  {
    f.entries[x].free && !f.entries[x].busy
  }

  /** The thread count is the number of allocation threads until the first failure, and negative ever
      after. */
  ghost predicate CountOk(s: State) {
    && s.Threads() <= MAX_PARALLOC_THREADS
    && (if s.failed then s.count < 0 else s.count == s.Threads())
  }

  /** Every entry of every round has been picked exactly once or is still to be picked. */
  ghost predicate DecidedOnce(s: State) {
    && (forall k | 0 <= k < |s.rounds| :: Homed(s.rounds[k].f))
    && (forall k, x | s.Here(k, x) :: (k, x) in s.decided <==> !Untouched(s.rounds[k].f, x))
    && (forall i | 0 <= i < |s.decided| :: s.Here(s.decided[i].0, s.decided[i].1))
    && (forall i, j | 0 <= i < j < |s.decided| :: s.decided[i] != s.decided[j])
  }

  ghost predicate BusyHere(s: State, k: int, x: int) {
    s.Here(k, x) && s.rounds[k].f.entries[x].busy
  }

  /** Whoever is at work on an entry has it to itself. */
  ghost predicate Apart(s: State) {
    && (forall k, x | (k, x) in s.working :: BusyHere(s, k, x))
    && (s.main.Deciding? || s.main.WantSlot? ==> BusyHere(s, s.cur, s.main.x) && (s.cur, s.main.x) !in s.working)
  }

  /** All entries of round `k` have been picked. */
  ghost predicate RoundDone(s: State, k: int) {
    forall x | s.Here(k, x) :: (k, x) in s.decided
  }

  ghost predicate Progress(s: State) {
    && s.cur <= |s.rounds|
    && (s.main.Draining? || s.main == Returned(true) ==> s.cur == |s.rounds|)
    && forall k | 0 <= k < s.cur && !s.rounds[k].raw :: RoundDone(s, k)
  }

  ghost predicate Outcome(s: State) {
    && (s.broken ==> s.main == Returned(false))
    && (s.main == Returned(true) ==> s.Threads() == 0 && !s.failed)
    && (s.main == Returned(false) ==> s.failed || s.broken)
  }

  /** The flags tell what became of an entry: one that has been decided and is not busy is no longer
      free, and exists exactly if it was made. */
  ghost predicate Fated(s: State) {
    && (forall k, x | (k, x) in s.fate :: s.Here(k, x))
    && (forall k, x | s.Here(k, x) ::
          && ((k, x) in s.fate <==> (k, x) in s.decided && !BusyHere(s, k, x))
          && ((k, x) in s.fate ==>
                var e := s.rounds[k].f.entries[x]; !e.free && e.present == (s.fate[(k, x)] == Made)))
  }

  /** A busy entry is at work, or the main thread has just picked it or given up over it. */
  ghost predicate Held(s: State) {
    forall k, x | BusyHere(s, k, x) ::
      || (k, x) in s.working || s.main == Returned(false)
      || ((s.main.Deciding? || s.main.WantSlot?) && k == s.cur && x == s.main.x)
  }

  /** A failure has been reported or will be. */
  ghost predicate Blamed(s: State) {
    forall p | p in s.fate && s.fate[p] == Failed :: s.failed || s.broken || 0 < s.badPending
  }

  ghost predicate Plain(s: State, k: int) {
    0 <= k < |s.rounds| && !s.rounds[k].raw
  }

  ghost predicate OfFiles(s: State, k: int) {
    0 <= k < |s.rounds| && !s.rounds[k].leaf
  }

  /** Nothing of a raw device is picked, and only files go to allocation threads. */
  ghost predicate Lawful(s: State) {
    && (s.main.Looping? || s.main.Deciding? || s.main.WantSlot? ==> Plain(s, s.cur))
    && (s.main.WantSlot? ==> OfFiles(s, s.cur))
    && (forall k, x | (k, x) in s.decided :: Plain(s, k))
    && (forall k, x | (k, x) in s.working :: OfFiles(s, k))
  }

  ghost predicate Inv(s: State) {
    && CountOk(s) && DecidedOnce(s) && Apart(s) && Progress(s) && Outcome(s)
    && Fated(s) && Held(s) && Blamed(s) && Lawful(s)
  }

  lemma CountStep(s: State, a: Action)
    requires Inv(s) && Enabled(s, a)
    ensures CountOk(Apply(s, a)) && (s.failed ==> Apply(s, a).failed)
  {
    hide Homed, Pick, Unbusy, DecidedOnce, Apart, Progress, Outcome, Fated, Held, Blamed, Lawful;
    match a {
      case TakeSlot => OneMoreThread(s);
      case _ =>
    }
  }

  lemma OneMoreThread(s: State)
    requires Apart(s) && s.main.WantSlot?
    ensures |s.working + {(s.cur, s.main.x)}| == |s.working| + 1
  {
  }

  /** Setting or clearing the existence of an entry takes it off the free tree for good. */
  lemma UnbusyDecides(f: Files, x: int, ok: bool)
    requires Homed(f) && x in f.entries
    ensures var g := Unbusy(f, x, true, ok, 0).0;
      && Homed(g) && g.entries.Keys == f.entries.Keys && !Untouched(g, x)
      && forall y | y in f.entries && y != x :: g.entries[y] == f.entries[y]
  {
    FilesetProtocol.UnbusyHomed(f, x, true, ok, 0);
  }

  /** A pick of a free file finds nothing only if every file has been picked. */
  lemma PickDecides(f: Files, index: int)
    requires Homed(f)
    ensures var (g, r) := Pick(f, Unique(index));
      && (r.Nothing? ==> forall x | x in f.entries :: !Untouched(f, x))
      && (r.Picked? ==>
            && Homed(g) && g.entries.Keys == f.entries.Keys && r.x in f.entries
            && Untouched(f, r.x) && g.entries[r.x].busy
            && forall y | y in f.entries && y != r.x :: g.entries[y] == f.entries[y])
  {
    var r := Pick(f, Unique(index)).1;
    if r.Nothing? {
      forall x | x in f.entries ensures !Untouched(f, x) {
        assert Untouched(f, x) ==> x in f.free * Idle(f);
      }
    }
  }

  /** What a step may do to the rounds: nothing, or settle or pick one entry. */
  ghost predicate Touches(s: State, s': State, k: int, x: int) {
    && s.Here(k, x) && |s'.rounds| == |s.rounds|
    && (forall j | 0 <= j < |s.rounds| && j != k :: s'.rounds[j] == s.rounds[j])
    && s'.rounds[k].leaf == s.rounds[k].leaf && s'.rounds[k].raw == s.rounds[k].raw
    && var f, g := s.rounds[k].f, s'.rounds[k].f;
    && Homed(g) && g.entries.Keys == f.entries.Keys && !Untouched(g, x)
    && forall y | y in f.entries && y != x :: g.entries[y] == f.entries[y]
  }

  lemma SettleTouches(s: State, k: int, x: int, ok: bool)
    requires DecidedOnce(s) && s.Here(k, x)
    ensures Touches(s, Settle(s, k, x, ok), k, x)
  {
    UnbusyDecides(s.rounds[k].f, x, ok);
  }

  lemma DecidedKept(s: State, s': State, k: int, x: int)
    requires DecidedOnce(s) && Touches(s, s', k, x)
    requires
      || (s'.decided == s.decided && (k, x) in s.decided)
      || (s'.decided == s.decided + [(k, x)] && (k, x) !in s.decided)
    ensures DecidedOnce(s')
  {
    assert forall j, y :: s'.Here(j, y) <==> s.Here(j, y);
    forall j, y | s'.Here(j, y) ensures (j, y) in s'.decided <==> !Untouched(s'.rounds[j].f, y) {
      assert s.Here(j, y);
    }
  }

  /** The entry that a step touches, if any. */
  lemma StepTouches(s: State, a: Action)
    requires Inv(s) && Enabled(s, a)
    ensures var s' := Apply(s, a);
      match a
      case PickNext(_) =>
        if s'.main.Deciding? then
          && Touches(s, s', s.cur, s'.main.x) && s'.decided == s.decided + [(s.cur, s'.main.x)]
          && (s.cur, s'.main.x) !in s.decided && BusyHere(s', s.cur, s'.main.x) && (s.cur, s'.main.x) !in s.working
        else s'.rounds == s.rounds && s'.decided == s.decided
      case Skip => Touches(s, s', s.cur, s.main.x) && s'.decided == s.decided && (s.cur, s.main.x) in s.decided
      case Inline(_) => Touches(s, s', s.cur, s.main.x) && s'.decided == s.decided && (s.cur, s.main.x) in s.decided
      case Finish(k, x, _) => Touches(s, s', k, x) && s'.decided == s.decided && (k, x) in s.decided
      case _ => s'.rounds == s.rounds && s'.decided == s.decided
  {
    hide Homed, Pick, Unbusy, CountOk, Progress, Outcome, Fated, Held, Blamed, Lawful;
    match a {
      case PickNext(index) =>
        PickDecides(s.rounds[s.cur].f, index);
        var (g, r) := Pick(s.rounds[s.cur].f, Unique(index));
        if r.Picked? {
          assert s.Here(s.cur, r.x);
          assert (s.cur, r.x) in s.working ==> BusyHere(s, s.cur, r.x);
        }
      case Skip => SettleTouches(s, s.cur, s.main.x, false);
      case Inline(ok) => SettleTouches(s, s.cur, s.main.x, ok);
      case Finish(k, x, ok) =>
        SettleTouches(s, k, x, ok);
        assert BusyHere(s, k, x);
      case _ =>
    }
  }

  lemma DecidedStep(s: State, a: Action)
    requires Inv(s) && Enabled(s, a)
    ensures DecidedOnce(Apply(s, a))
  {
    StepTouches(s, a);
    hide Apply, DecidedOnce, Apart, CountOk, Progress, Outcome, Touches;
    var s' := Apply(s, a);
    match a {
      case PickNext(_) =>
        if s'.main.Deciding? {
          DecidedKept(s, s', s.cur, s'.main.x);
        } else {
          DecidedSame(s, s');
        }
      case Skip => DecidedKept(s, s', s.cur, s.main.x);
      case Inline(_) => DecidedKept(s, s', s.cur, s.main.x);
      case Finish(k, x, _) => DecidedKept(s, s', k, x);
      case _ => DecidedSame(s, s');
    }
  }

  lemma DecidedSame(s: State, s': State)
    requires DecidedOnce(s) && s'.rounds == s.rounds && s'.decided == s.decided
    ensures DecidedOnce(s')
  {
    assert forall k, x :: s'.Here(k, x) <==> s.Here(k, x);
  }

  lemma ApartStep(s: State, a: Action)
    requires Inv(s) && Enabled(s, a)
    ensures Apart(Apply(s, a))
  {
    hide Homed, Pick, Unbusy, CountOk, Progress, Outcome, DecidedOnce, Untouched, Fated, Held, Blamed, Lawful;
    StepTouches(s, a);
    var s' := Apply(s, a);
    forall k, x | (k, x) in s'.working ensures BusyHere(s', k, x) {
      if !(a.TakeSlot? && (k, x) == (s.cur, s.main.x)) {
        assert BusyHere(s, k, x);
      }
    }
  }

  /** What has been picked stays picked. */
  lemma ProgressStep(s: State, a: Action)
    requires Inv(s) && Enabled(s, a)
    ensures Progress(Apply(s, a))
  {
    hide Homed, Pick, Unbusy, CountOk, Apart, Outcome, DecidedOnce, Fated, Held, Blamed, Lawful;
    StepTouches(s, a);
    var s' := Apply(s, a);
    if a.PickNext? {
      RoundPicked(s, a);
    }
    forall k | 0 <= k < s'.cur && !s'.rounds[k].raw ensures RoundDone(s', k) {
      if k < s.cur {
        assert RoundDone(s, k);
        assert forall x | s'.Here(k, x) :: s.Here(k, x);
      }
    }
  }

  /** A round ends only when all its entries have been picked. */
  lemma RoundPicked(s: State, a: Action)
    requires Inv(s) && Enabled(s, a) && a.PickNext?
    ensures Apply(s, a).cur != s.cur ==> RoundDone(s, s.cur)
  {
    hide Pick, Homed;
    PickDecides(s.rounds[s.cur].f, a.index);
  }

  lemma SettleFlags(s: State, k: int, x: int, ok: bool)
    requires s.Here(k, x)
    ensures var t := Settle(s, k, x, ok);
      t.Here(k, x) && var e := t.rounds[k].f.entries[x]; !e.busy && !e.free && e.present == ok
  {
  }

  /** Settling one entry, or picking one, changes what is said about no other. */
  lemma FatedKept(s: State, s': State, k: int, x: int)
    requires Fated(s) && Touches(s, s', k, x) && s'.Here(k, x)
    requires s'.decided == s.decided || s'.decided == s.decided + [(k, x)]
    requires forall p | p != (k, x) :: (p in s'.fate <==> p in s.fate) && (p in s.fate ==> s'.fate[p] == s.fate[p])
    requires (k, x) in s'.fate <==> (k, x) in s'.decided && !BusyHere(s', k, x)
    requires (k, x) in s'.fate ==>
      var e := s'.rounds[k].f.entries[x]; !e.free && e.present == (s'.fate[(k, x)] == Made)
    ensures Fated(s')
  {
    hide Homed, Untouched;
    assert forall j, y :: s'.Here(j, y) <==> s.Here(j, y);
    forall j, y | s'.Here(j, y)
      ensures (j, y) in s'.fate <==> (j, y) in s'.decided && !BusyHere(s', j, y)
      ensures (j, y) in s'.fate ==>
        var e := s'.rounds[j].f.entries[y]; !e.free && e.present == (s'.fate[(j, y)] == Made)
    {
      if (j, y) != (k, x) {
        assert s.Here(j, y) && s'.rounds[j].f.entries[y] == s.rounds[j].f.entries[y];
        assert BusyHere(s', j, y) <==> BusyHere(s, j, y);
      }
    }
  }

  lemma FatedSame(s: State, s': State)
    requires Fated(s) && s'.rounds == s.rounds && s'.decided == s.decided && s'.fate == s.fate
    ensures Fated(s')
  {
    assert forall j, y :: s'.Here(j, y) <==> s.Here(j, y);
    assert forall j, y :: BusyHere(s', j, y) <==> BusyHere(s, j, y);
  }

  lemma FatedStep(s: State, a: Action)
    requires Inv(s) && Enabled(s, a)
    ensures Fated(Apply(s, a))
  {
    hide Homed, Pick, Unbusy, Untouched, DecidedOnce, CountOk, Apart, Progress, Outcome, Fated, Held, Blamed, Touches;
    StepTouches(s, a);
    var s' := Apply(s, a);
    match a {
      case PickNext(_) =>
        if s'.main.Deciding? {
          NotYetFated(s, s.cur, s'.main.x);
          FatedKept(s, s', s.cur, s'.main.x);
        } else {
          FatedSame(s, s');
        }
      case Skip =>
        SettleFlags(s, s.cur, s.main.x, false);
        FatedKept(s, s', s.cur, s.main.x);
      case Inline(ok) =>
        SettleFlags(s, s.cur, s.main.x, ok);
        FatedKept(s, s', s.cur, s.main.x);
      case Finish(k, x, ok) =>
        SettleFlags(s, k, x, ok);
        FatedKept(s, s', k, x);
      case _ => FatedSame(s, s');
    }
  }

  lemma NotYetFated(s: State, k: int, x: int)
    requires Fated(s) && (k, x) !in s.decided
    ensures (k, x) !in s.fate
  {
  }

  lemma HeldStep(s: State, a: Action)
    requires Inv(s) && Enabled(s, a)
    ensures Held(Apply(s, a))
  {
    hide Homed, Pick, Unbusy, Untouched, DecidedOnce, CountOk, Apart, Progress, Outcome, Fated, Blamed;
    StepTouches(s, a);
    match a {
      case Skip => SettleFlags(s, s.cur, s.main.x, false);
      case Inline(ok) => SettleFlags(s, s.cur, s.main.x, ok);
      case Finish(k, x, ok) => SettleFlags(s, k, x, ok);
      case _ =>
    }
    var s' := Apply(s, a);
    forall k, x | BusyHere(s', k, x)
      ensures
        || (k, x) in s'.working || s'.main == Returned(false)
        || ((s'.main.Deciding? || s'.main.WantSlot?) && k == s'.cur && x == s'.main.x)
    {
      if !(a.PickNext? && s'.main.Deciding? && (k, x) == (s.cur, s'.main.x)) {
        assert BusyHere(s, k, x);
      }
    }
  }

  lemma LawfulStep(s: State, a: Action)
    requires Inv(s) && Enabled(s, a)
    ensures Lawful(Apply(s, a))
  {
    hide Homed, Pick, Unbusy, Untouched, DecidedOnce, CountOk, Apart, Progress, Outcome, Fated, Held, Blamed;
    var s' := Apply(s, a);
    assert forall k :: (Plain(s', k) <==> Plain(s, k)) && (OfFiles(s', k) <==> OfFiles(s, k));
  }

  lemma BlamedStep(s: State, a: Action)
    requires Inv(s) && Enabled(s, a)
    ensures Blamed(Apply(s, a))
  {
    hide Homed, Pick, Unbusy, DecidedOnce, CountOk, Apart, Progress, Fated, Held;
  }

  lemma OutcomeStep(s: State, a: Action)
    requires Inv(s) && Enabled(s, a)
    ensures Outcome(Apply(s, a))
  {
    hide Homed, Pick, Unbusy, DecidedOnce, Apart, Progress, Fated, Held, Blamed, Lawful;
  }

  lemma InvStep(s: State, a: Action)
    requires Inv(s) && Enabled(s, a)
    ensures Inv(Apply(s, a))
  {
    hide Apply, Enabled, DecidedOnce, Apart, CountOk, Progress, Outcome, Fated, Held, Blamed, Lawful;
    CountStep(s, a);
    DecidedStep(s, a);
    ApartStep(s, a);
    ProgressStep(s, a);
    OutcomeStep(s, a);
    FatedStep(s, a);
    HeldStep(s, a);
    BlamedStep(s, a);
    LawfulStep(s, a);
  }

  /** fileset_createset on freshly populated filesets, two rounds for each, with `leftover` allocation
      threads of an earlier call still at work on other entries. */
  ghost predicate Begun(s: State, leftover: nat) {
    && s.cur == 0 && s.main.Entering? && s.count == 0 && s.working == {} && s.decided == []
    && s.fate == map[] && !s.failed && !s.broken
    && s.badPending == 0 && s.okPending == leftover
    && (forall k | 0 <= k < |s.rounds| :: Homed(s.rounds[k].f) && s.rounds[k].leaf == (k % 2 == 1))
    && forall k, x | s.Here(k, x) :: s.rounds[k].f.entries[x] == Entry(true, false, false, false, 0)
  }

  ghost function Step(s: State, a: Action): Option<State> {
    if Enabled(s, a) then Some(Apply(s, a)) else None
  }

  ghost predicate Possible(s: State, run: seq<Action>) {
    Runs.Possible(Step, s, run)
  }

  ghost function After(s: State, run: seq<Action>): State
    requires Possible(s, run)
  {
    Runs.After(Step, s, run)
  }

  lemma RunKeepsInv(s: State, run: seq<Action>)
    requires Inv(s) && Possible(s, run)
    ensures Inv(After(s, run)) && (s.failed ==> After(s, run).failed)
  {
    hide Inv, Apply, Enabled;
    forall t, a | Inv(t) && Step(t, a).Some? ensures Inv(Step(t, a).value) && (t.failed ==> Step(t, a).value.failed) {
      InvStep(t, a);
      FailureStays(t, a);
    }
    Runs.Keeps(Step, t => Inv(t) && (s.failed ==> t.failed), _ => true, s, run);
  }

  lemma FailureStays(s: State, a: Action)
    requires Inv(s) && Enabled(s, a)
    ensures s.failed ==> Apply(s, a).failed
  {
    CountStep(s, a);
  }

  /** In every run over any list of filesets, without leftover threads: at most 32 allocation threads
      are outstanding; once a failure is reported the count stays negative; no entry is picked twice;
      fileset_createset returns OK only if every thread has finished, none failed, and every file and
      leaf directory of every fileset that is not a raw device has been picked for a decision; and it
      returns an error only if a thread or the main thread failed. */
  lemma Safety(s: State, run: seq<Action>)
    requires Begun(s, 0) && Possible(s, run)
    ensures var e := After(s, run);
      && e.Threads() <= 32
      && (e.failed ==> e.count < 0)
      && (forall i, j | 0 <= i < j < |e.decided| :: e.decided[i] != e.decided[j])
      && (forall k, x | (k, x) in e.decided :: Plain(e, k)) && (forall k, x | (k, x) in e.working :: OfFiles(e, k))
      && (e.main == Returned(true) ==>
            && e.Threads() == 0 && !e.failed && !e.broken
            && forall k | 0 <= k < |e.rounds| && !e.rounds[k].raw :: RoundDone(e, k))
      && (e.main == Returned(false) ==> e.failed || e.broken)
  {
    BegunInv(s);
    hide Inv;
    RunKeepsInv(s, run);
    InvParts(After(s, run));
  }

  /** In every run, an entry that has been decided and is not busy has the existence flag exactly if
      the main thread or an allocation thread made it. */
  lemma FlagsTell(s: State, run: seq<Action>, k: int, x: int)
    requires Begun(s, 0) && Possible(s, run) && After(s, run).Here(k, x)
    requires (k, x) in After(s, run).decided && !After(s, run).rounds[k].f.entries[x].busy
    ensures var e := After(s, run); var f := e.rounds[k].f.entries[x];
      (k, x) in e.fate && !f.free && (f.present <==> e.fate[(k, x)] == Made)
  {
    BegunInv(s);
    hide Inv;
    RunKeepsInv(s, run);
    InvParts(After(s, run));
    hide After, Possible;
    assert !BusyHere(After(s, run), k, x);
  }

  lemma BegunInv(s: State)
    requires Begun(s, 0)
    ensures Inv(s)
  {
  }

  lemma InvParts(s: State)
    requires Inv(s)
    ensures CountOk(s) && DecidedOnce(s) && Progress(s) && Outcome(s) && Fated(s) && Held(s) && Blamed(s) && Lawful(s)
  {
  }

  /** When fileset_createset has returned OK, nothing is free in a fileset that is not a raw device, the
      entries in the tree of existing ones are those that were made, and the entries in the other tree
      are those that were skipped. */
  lemma SortedOut(s: State, run: seq<Action>, k: int)
    requires Begun(s, 0) && Possible(s, run) && After(s, run).main == Returned(true)
    requires 0 <= k < |After(s, run).rounds| && !After(s, run).rounds[k].raw
    ensures var e := After(s, run); var f := e.rounds[k].f;
      && (forall x | x in f.entries :: (k, x) in e.fate && e.fate[(k, x)] != Failed)
      && (forall x :: x !in f.free)
      && (forall x :: x in f.exist <==> x in f.entries && (k, x) in e.fate && e.fate[(k, x)] == Made)
      && (forall x :: x in f.noex <==> x in f.entries && (k, x) in e.fate && e.fate[(k, x)] == Skipped)
  {
    BegunInv(s);
    hide Inv;
    RunKeepsInv(s, run);
    Safety(s, run);
    InvParts(After(s, run));
    hide After, Possible;
    var e := After(s, run);
    var f := e.rounds[k].f;
    assert Homed(f) && RoundDone(e, k);
    forall x | x in f.entries
      ensures (k, x) in e.fate && e.fate[(k, x)] != Failed && HomeOf(f.entries[x]).Free? == false
      ensures HomeOf(f.entries[x]).Exist? <==> e.fate[(k, x)] == Made
    {
      assert e.Here(k, x) && !BusyHere(e, k, x);
    }
  }

  /** Asking for an index that is free and idle gets that entry. */
  lemma PickExact(f: Files, x: int)
    requires x in f.entries && x in f.free && !f.entries[x].busy && f.idle != 0
    ensures Pick(f, Unique(x)) == (MarkBusy(f, x).(idle := f.idle - 1), Picked(x))
  {
    var I := f.free * Idle(f);
    assert x in I;
    LeastIs(AtOrAbove(f.free, x), x);
    LeastIs(AtOrAbove(I, x), x);
  }

  lemma PickNothing(f: Files, i: int)
    requires f.idle != 0 && forall x | x in f.free :: x in f.entries && f.entries[x].busy
    ensures Pick(f, Unique(i)) == (f, Nothing)
  {
    assert forall x | x in f.free :: x !in Idle(f);
    assert f.free * Idle(f) <= {};
  }

  /** One fileset with two files, both free, and no leaf directories. */
  function TwoFiles(leftover: nat): State {
    var e := Entry(true, false, false, false, 0);
    var files := Files(map[0 := e, 1 := e], {0, 1}, {}, {}, 2, 0, map[]);
    var leafs := Files(map[], {}, {}, {}, 0, 0, map[]);
    var rounds := [Round(files, false, false), Round(leafs, true, false)];
    State(rounds, 0, Entering, 0, {}, leftover, 0, [], map[], false, false)
  }

  /** The guarantee rests on there being no leftover threads when the count is reset.  With any
      positive number of them there would be a run in which file 0 goes to a thread, file 1 is
      skipped, a leftover thread reports first, and fileset_createset returns OK while the thread is
      still at work on file 0. */
  lemma LeftoverBreaks(leftover: nat) returns (run: seq<Action>)
    requires 0 < leftover
    ensures var s := TwoFiles(leftover);
      && Begun(s, leftover) && Possible(s, run)
      && After(s, run).main == Returned(true) && After(s, run).working == {(0, 0)}
  {
    var s := TwoFiles(leftover);
    hide Possible, After, Pick;
    Nowhere(s);
    run := [];
    run := Then(s, run, Enter(true));
    PickExact(s.rounds[0].f, 0);
    run := Then(s, run, PickNext(0));
    run := Then(s, run, Allocate);
    run := Then(s, run, TakeSlot);
    PickExact(After(s, run).rounds[0].f, 1);
    run := Then(s, run, PickNext(1));
    run := Then(s, run, Skip);
    run := Then(s, run, Report(true));
    PickNothing(After(s, run).rounds[0].f, 0);
    run := Then(s, run, PickNext(0));
    run := Then(s, run, Enter(true));
    PickEmpty(After(s, run).rounds[1].f, 0);
    run := Then(s, run, PickNext(0));
    run := Then(s, run, EndOfList);
    run := Then(s, run, Drain);
  }

  lemma Then(s: State, run: seq<Action>, a: Action) returns (run': seq<Action>)
    requires Possible(s, run) && Enabled(After(s, run), a)
    ensures Possible(s, run') && After(s, run') == Apply(After(s, run), a)
  {
    Runs.OneMore(Step, s, run, a);
    run' := run + [a];
  }

  lemma Nowhere(s: State)
    ensures Possible(s, []) && After(s, []) == s
  {
  }

  lemma PickEmpty(f: Files, i: int)
    requires f.entries == map[]
    ensures Pick(f, Unique(i)) == (f, Nothing)
  {
  }
}
