/** Any number of threads allocating and freeing shared objects of every type.  A thread reads the
    start index in one step and scans under the lock in a later one, with other threads' steps in
    between. */
module IpcProtocol {
  import opened Wrappers
  import Runs
  import opened IpcSlots

  const TYPES := 8
  const AVD := 3

  datatype Pool = Pool(taken: seq<bool>, last: nat)

  /** A thread outside ipc_malloc, or between reading the start index and taking the lock. */
  datatype Phase = Outside | Entered(kind: nat, start: nat)

  datatype Event = Granted(kind: nat, slot: nat) | Freed(kind: nat, slot: nat)

  /** `log` records what was handed out and freed, in order. */
  datatype State = State(pools: seq<Pool>, threads: map<int, Phase>, log: seq<Event>)

  datatype Action =
    | Enter(t: int, kind: nat)
    | Allocate(t: int, outcome: Option<nat>)
    | Release(kind: nat, slot: nat)

  /** Who holds a slot is decided by the log alone: its last entry for the slot. */
  ghost predicate Live(log: seq<Event>, kind: nat, slot: nat) {
    if log == [] then false
    else if log[|log| - 1] == Granted(kind, slot) then true
    else if log[|log| - 1] == Freed(kind, slot) then false
    else Live(log[..|log| - 1], kind, slot)
  }

  /** The slot of a kind that was handed out last, 0 if none was. */
  ghost function LastGrant(log: seq<Event>, kind: nat): nat {
    if log == [] then 0
    else if log[|log| - 1].Granted? && log[|log| - 1].kind == kind then log[|log| - 1].slot
    else LastGrant(log[..|log| - 1], kind)
  }

  /** The outcome of an allocation is the one that IpcSlots.Slots.Malloc computes. */
  ghost predicate Enabled(s: State, a: Action) {
    match a
    case Enter(t, kind) => t in s.threads && s.threads[t].Outside? && kind < |s.pools|
    case Allocate(t, r) =>
      && t in s.threads && s.threads[t].Entered? && s.threads[t].kind < |s.pools|
      && var p := s.pools[s.threads[t].kind];
      s.threads[t].start < |p.taken| && Scanned(p.taken, s.threads[t].start, r)
    case Release(kind, slot) => kind < |s.pools| && kind != AVD && slot < |s.pools[kind].taken|
  }

  function Grant(p: Pool, i: nat): Pool
    requires i < |p.taken|
  {
    Pool(p.taken[i := true], i)
  }

  ghost function Apply(s: State, a: Action): State
    requires Enabled(s, a)
  {
    match a
    case Enter(t, kind) => s.(threads := s.threads[t := Entered(kind, s.pools[kind].last)])
    case Allocate(t, r) =>
      var out, k := s.threads[t := Outside], s.threads[t].kind;
      (match r
       case None => s.(threads := out)
       case Some(i) => State(s.pools[k := Grant(s.pools[k], i)], out, s.log + [Granted(k, i)]))
    case Release(kind, slot) =>
      var p := s.pools[kind];
      State(s.pools[kind := p.(taken := p.taken[slot := false])], s.threads, s.log + [Freed(kind, slot)])
  }

  /** A slot was free whenever it was handed out. */
  ghost predicate NeverTwice(log: seq<Event>) {
    forall k | 0 <= k < |log| && log[k].Granted? :: !Live(log[..k], log[k].kind, log[k].slot)
  }

  /** The bitmap is exactly the set of live slots. */
  ghost predicate BitmapIsLive(s: State) {
    forall k, i | 0 <= k < |s.pools| && 0 <= i < |s.pools[k].taken| :: s.pools[k].taken[i] <==> Live(s.log, k, i)
  }

  ghost predicate InRange(s: State) {
    && (forall k | 0 <= k < |s.pools| :: s.pools[k].last < |s.pools[k].taken|)
    && forall t | t in s.threads && s.threads[t].Entered? ::
        s.threads[t].kind < |s.pools| && s.threads[t].start < |s.pools[s.threads[t].kind].taken|
  }

  /** shm_lastbitmapindex is the slot handed out last. */
  ghost predicate LastIsLatest(s: State) {
    forall k | 0 <= k < |s.pools| :: s.pools[k].last == LastGrant(s.log, k)
  }

  ghost predicate Inv(s: State) {
    InRange(s) && BitmapIsLive(s) && NeverTwice(s.log) && LastIsLatest(s)
  }

  lemma LogGrows(log: seq<Event>, e: Event)
    requires NeverTwice(log) && (e.Granted? ==> !Live(log, e.kind, e.slot))
    ensures NeverTwice(log + [e])
    ensures forall k, i :: Live(log + [e], k, i) <==>
      if e == Granted(k, i) then true else if e == Freed(k, i) then false else Live(log, k, i)
  {
    var more := log + [e];
    assert more[..|log|] == log;
    forall k | 0 <= k < |more| && more[k].Granted? ensures !Live(more[..k], more[k].kind, more[k].slot) {
      if k < |log| {
        assert more[..k] == log[..k];
      }
    }
  }

  lemma LastGrows(log: seq<Event>, e: Event, kind: nat)
    ensures LastGrant(log + [e], kind) == if e.Granted? && e.kind == kind then e.slot else LastGrant(log, kind)
  {
    assert (log + [e])[..|log|] == log;
  }

  lemma LatestStep(s: State, a: Action)
    requires LastIsLatest(s) && Enabled(s, a)
    ensures LastIsLatest(Apply(s, a))
  {
    var t := Apply(s, a);
    forall k | 0 <= k < |t.pools| ensures t.pools[k].last == LastGrant(t.log, k) {
      match a {
        case Allocate(u, Some(i)) => LastGrows(s.log, Granted(s.threads[u].kind, i), k);
        case Release(j, i) => LastGrows(s.log, Freed(j, i), k);
        case _ =>
      }
    }
  }

  /** In every run, a thread that enters the allocator starts from the slot handed out last. */
  lemma StartsFromLast(s: State, run: seq<Action>, t: int, kind: nat)
    requires Initial(s) && Possible(s, run) && Enabled(After(s, run), Enter(t, kind))
    ensures Apply(After(s, run), Enter(t, kind)).threads[t] == Entered(kind, LastGrant(After(s, run).log, kind))
  {
    RunKeepsInv(s, run);
  }

  lemma InvStep(s: State, a: Action)
    requires Inv(s) && Enabled(s, a)
    ensures Inv(Apply(s, a))
  {
    LatestStep(s, a);
    hide LastIsLatest;
    match a {
      case Allocate(t, Some(i)) =>
        var k := s.threads[t].kind;
        assert !s.pools[k].taken[i];
        LogGrows(s.log, Granted(k, i));
      case Release(k, i) => LogGrows(s.log, Freed(k, i));
      case _ =>
    }
  }

  ghost function Step(s: State, a: Action): Option<State> {
    if Enabled(s, a) then Some(Apply(s, a)) else None
  }

  ghost predicate Possible(s: State, run: seq<Action>) {
    Runs.Possible(Step, s, run)
  }

  ghost function After(s: State, run: seq<Action>): State
    requires Possible(s, run)
  {
    Runs.After(Step, s, run)
  }

  /** Shared memory as initialised: all slots free, no thread in the allocator. */
  ghost predicate Initial(s: State) {
    && |s.pools| == TYPES && s.log == []
    && (forall k | 0 <= k < |s.pools| :: 0 < |s.pools[k].taken| && s.pools[k].last == 0)
    && (forall k, i | 0 <= k < |s.pools| && 0 <= i < |s.pools[k].taken| :: !s.pools[k].taken[i])
    && forall t | t in s.threads :: s.threads[t].Outside?
  }

  lemma RunKeepsInv(s: State, run: seq<Action>)
    requires Inv(s) && Possible(s, run)
    ensures Inv(After(s, run))
  {
    forall t, a | Inv(t) && Step(t, a).Some? ensures Inv(Step(t, a).value) {
      InvStep(t, a);
    }
    Runs.Keeps(Step, t => Inv(t), _ => true, s, run);
  }

  /** In every run: no live slot was ever handed out again, and the bitmap is the live set. */
  lemma Safety(s: State, run: seq<Action>)
    requires Initial(s) && Possible(s, run)
    ensures NeverTwice(After(s, run).log) && BitmapIsLive(After(s, run))
  {
    RunKeepsInv(s, run);
  }

  /** Failure exactly if all slots but the start slot are live, else the first slot after it, in
      cyclic order, that is not. */
  ghost predicate AsPromised(s: State, t: int, r: Option<nat>) {
    && t in s.threads && s.threads[t].Entered? && s.threads[t].kind < |s.pools|
    && var k, start := s.threads[t].kind, s.threads[t].start;
    && var n := |s.pools[k].taken|;
    && start < n
    && (r.None? <==> forall i | 0 <= i < n && i != start :: Live(s.log, k, i))
    && (r.Some? ==>
          exists d | 0 < d < n ::
            && r.value == Around(n, start, d) && !Live(s.log, k, r.value)
            && forall e | 0 < e < d :: Live(s.log, k, Around(n, start, e)))
  }

  /** An allocation about to be made has exactly one outcome: it fails if and only if all slots but
      the start slot are live, else it gets a slot that is not, the first in cyclic order. */
  lemma Outcome(s: State, t: int) returns (r: Option<nat>)
    requires Inv(s) && t in s.threads && s.threads[t].Entered?
    ensures Enabled(s, Allocate(t, r))
    ensures forall r' | Enabled(s, Allocate(t, r')) :: r' == r
    ensures AsPromised(s, t, r)
  {
    var k, start := s.threads[t].kind, s.threads[t].start;
    var taken := s.pools[k].taken;
    r := SomeOutcome(taken, start);
    forall r' | Enabled(s, Allocate(t, r')) ensures r' == r {
      ScannedUnique(taken, start, r, r');
    }
    if r.Some? {
      var d :| 0 < d < |taken| && FreeAt(taken, start, r.value, d);
      assert !Live(s.log, k, r.value) && r.value != start;
      assert exists i | 0 <= i < |taken| && i != start :: !Live(s.log, k, i);
      assert forall e | 0 < e < d :: Live(s.log, k, Around(|taken|, start, e));
    }
    if r.None? {
      forall i | 0 <= i < |taken| && i != start ensures Live(s.log, k, i) {
        assert taken[i];
      }
    }
  }

  /** So in every run, whatever other threads did since the start index was read. */
  lemma AllocationOutcome(s: State, run: seq<Action>, t: int) returns (r: Option<nat>)
    requires Initial(s) && Possible(s, run) && t in After(s, run).threads && After(s, run).threads[t].Entered?
    ensures Enabled(After(s, run), Allocate(t, r))
    ensures forall r' | Enabled(After(s, run), Allocate(t, r')) :: r' == r
    ensures AsPromised(After(s, run), t, r)
  {
    RunKeepsInv(s, run);
    r := Outcome(After(s, run), t);
  }

  lemma SomeOutcome(taken: seq<bool>, start: nat) returns (r: Option<nat>)
    requires start < |taken|
    ensures Scanned(taken, start, r)
  {
    var d := 1;
    while d < |taken| && taken[Around(|taken|, start, d)]
      invariant 1 <= d <= |taken|
      invariant forall e | 0 < e < d :: taken[Around(|taken|, start, e)]
    {
      d := d + 1;
    }
    if d == |taken| {
      forall j | 0 <= j < |taken| && j != start ensures taken[j] {
        var e := Passes(|taken|, start, j);
      }
      r := None;
    } else {
      var i := Around(|taken|, start, d);
      assert FreeAt(taken, start, i, d);
      r := Some(i);
    }
  }
}
