/** The files of a fileset under fs_pick_lock, with every tree reduced to the set of indices it
    holds, and the critical sections of fileset_pick, fileset_unbusy and the wait-and-grab parts of
    deletefile and closefile as functions on that state. */
module FilesetState {

  /** A file entry: its flags and its open count. */
  datatype Entry = Entry(free: bool, present: bool, busy: bool, waiting: bool, openCnt: int)

  /** The trees of a kind of entry. */
  datatype Home = Free | Exist | Noex

  datatype Files = Files(
    entries: map<int, Entry>,
    free: set<int>, exist: set<int>, noex: set<int>,
    idle: int, nerotor: int, exrotor: map<int, int>)
  {
    function Tree(h: Home): set<int> {
      match h
      case Free => free
      case Exist => exist
      case Noex => noex
    }
  }

  /** Which tree the flags name. */
  function HomeOf(e: Entry): Home {
    if e.free then Free else if e.present then Exist else Noex
  }

  /** Every entry is in exactly one tree, the one its flags name. */
  ghost predicate Homed(f: Files) {
    && (forall x | x in f.entries ::
          && (x in f.free <==> HomeOf(f.entries[x]).Free?)
          && (x in f.exist <==> HomeOf(f.entries[x]).Exist?)
          && (x in f.noex <==> HomeOf(f.entries[x]).Noex?))
    && f.free + f.exist + f.noex <= f.entries.Keys
  }

  function Idle(f: Files): set<int> {
    set x | x in f.entries && !f.entries[x].busy
  }

  predicate IsLeast(S: set<int>, m: int) {
    m in S && forall x | x in S :: m <= x
  }

  lemma Element<T>(S: set<T>) returns (x: T)
    requires S != {}
    ensures x in S
  {
    x :| x in S;
  }

  lemma {:induction false} LeastExists(S: set<int>)
    requires S != {}
    ensures exists m :: IsLeast(S, m)
  {
    var x := Element(S);
    if S - {x} != {} {
      LeastExists(S - {x});
      var m :| IsLeast(S - {x}, m);
      assert S == (S - {x}) + {x};
      assert IsLeast(S, if x < m then x else m);
    } else {
      assert S == {x};
      assert IsLeast(S, x);
    }
  }

  function Least(S: set<int>): (m: int)
    requires S != {}
    ensures IsLeast(S, m)
  {
    LeastExists(S);
    var m :| m in S && IsLeast(S, m);
    m
  }

  lemma LeastIs(S: set<int>, m: int)
    requires IsLeast(S, m)
    ensures S != {} && Least(S) == m
  {
  }

  function AtOrAbove(T: set<int>, i: int): set<int> {
    set x | x in T && i <= x
  }

  /** fileset_find_entry: the least index at or above the request, wrapping to the least index.  With
      x + 1 for the request it is also the step of the busy scan. */
  function Requested(T: set<int>, i: int): (x: int)
    requires T != {}
    ensures x in T
  {
    if AtOrAbove(T, i) != {} then Least(AtOrAbove(T, i)) else Least(T)
  }

  /** What a pick asks for: a free file near an index (supplied or random), or a file that exists or
      not, by index or in rotation. */
  datatype Request =
    | Unique(index: int)
    | ByIndex(noexist: bool, index: int)
    | ByRotor(noexist: bool, tid: int)
  {
    function Home(): Home {
      if Unique? then Free else if noexist then Noex else Exist
    }
  }

  function Wanted(f: Files, req: Request): int {
    match req
    case Unique(i) => i
    case ByIndex(_, i) => i
    case ByRotor(noexist, tid) => if noexist then f.nerotor else if tid in f.exrotor then f.exrotor[tid] else 0
  }

  /** The rotor moves just past the entry found for it, busy or not. */
  function Rotated(f: Files, req: Request, found: int): Files {
    match req
    case Unique(_) => f
    case ByIndex(_, _) => f
    case ByRotor(noexist, tid) =>
      if noexist then f.(nerotor := found + 1) else f.(exrotor := f.exrotor[tid := found + 1])
  }

  datatype Outcome = Waits | Nothing | Picked(x: int)

  /** `x` is passed by a scan that starts at `q`, goes up and wraps round, and has come to `e`. */
  predicate Passed(q: int, x: int, e: int) {
    if q <= e then q <= x < e else q <= x || x < e
  }

  lemma RequestedFirst(S: set<int>, q: int)
    requires S != {}
    ensures forall y | y in S :: !Passed(q, y, Requested(S, q))
  {
    forall y | y in S ensures !Passed(q, y, Requested(S, q)) {
      if AtOrAbove(S, q) != {} {
        assert q <= y ==> y in AtOrAbove(S, q);
      } else {
        assert y !in AtOrAbove(S, q);
      }
    }
  }

  /** The first idle entry of `T` from `q` on, going round, if there is one. */
  function FirstIdle(f: Files, T: set<int>, q: int): (r: Outcome)
    ensures r.Nothing? <==> T * Idle(f) == {}
    ensures r.Picked? ==> r.x in T && r.x in Idle(f) && forall y | y in T && y in Idle(f) :: !Passed(q, y, r.x)
    ensures !r.Waits?
  {
    var I := T * Idle(f);
    if I == {} then Nothing
    else
      RequestedFirst(I, q);
      Picked(Requested(I, q))
  }

  function MarkBusy(f: Files, x: int): Files
    requires x in f.entries
  {
    f.(entries := f.entries[x := f.entries[x].(busy := true)])
  }

  /** fileset_pick: the new state, and whether the caller has to wait for an idle file, gets nothing,
      or gets an entry that is now busy. */
  function Pick(f: Files, req: Request): (Files, Outcome) {
    var T := f.Tree(req.Home());
    if f.entries == map[] then (f, Nothing)
    else if f.idle == 0 then (f, Waits)
    else if T == {} then (f, Nothing)
    else
      var q := Requested(T, Wanted(f, req));
      var g := Rotated(f, req, q);
      var r := FirstIdle(f, T, q);
      if r.Picked? then (MarkBusy(g, r.x).(idle := f.idle - 1), r) else (g, r)
  }

  /** Where fileset_unbusy sends an entry. */
  function Settled(e: Entry, update: bool, nowExists: bool): Entry {
    if !update then e else e.(free := false, present := nowExists)
  }

  function Moved(f: Files, x: int, src: Home, dst: Home): Files {
    var g := f.(free := if src.Free? then f.free - {x} else f.free,
                exist := if src.Exist? then f.exist - {x} else f.exist,
                noex := if src.Noex? then f.noex - {x} else f.noex);
    g.(free := if dst.Free? then g.free + {x} else g.free,
       exist := if dst.Exist? then g.exist + {x} else g.exist,
       noex := if dst.Noex? then g.noex + {x} else g.noex)
  }

  /** fileset_unbusy: sets or clears the existence of the entry if asked to, moving it to the tree
      that then fits, adjusts its open count, and if it was busy makes it idle.  The flag tells
      whether sleepers on fs_thrd_wait_cv are woken. */
  function Unbusy(f: Files, x: int, update: bool, nowExists: bool, incr: int): (Files, bool)
    requires x in f.entries
  {
    var e := f.entries[x];
    var s := Settled(e, update, nowExists);
    var g := if HomeOf(e) == HomeOf(s) then f else Moved(f, x, HomeOf(e), HomeOf(s));
    var s := s.(openCnt := e.openCnt + incr);
    if e.busy then
      (g.(entries := f.entries[x := s.(busy := false, waiting := false)], idle := f.idle + 1), e.waiting)
    else
      (g.(entries := f.entries[x := s]), false)
  }

  datatype Kind = Delete | Close

  /** The wait loop of deletefile and closefile: a busy entry is marked as waited for, an idle one is
      taken.  closefile counts it out of the idle files only if it has been opened once. */
  function Grab(f: Files, x: int, k: Kind): (Files, Outcome)
    requires x in f.entries
  {
    var e := f.entries[x];
    if e.busy then (f.(entries := f.entries[x := e.(waiting := true)]), Waits)
    else
      var g := MarkBusy(f, x);
      (if k.Delete? || e.openCnt == 1 then g.(idle := f.idle - 1) else g, Picked(x))
  }
}
