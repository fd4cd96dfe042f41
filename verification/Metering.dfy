/** The event generator and the rate limiters that drain it.  One producer posts events, any number
    of limiters take them, and limiters may wait between taking a sample and getting their events.
    Updates of the queue hold shm_eventgen_lock while they test its length, load it and store the new
    one; eventgen_reset does not take the lock, so it may come in between. */
module Metering {
  import opened Wrappers
  import opened Division
  import Runs

  const MB := 1024 * 1024
  const NSEC_PER_SEC := 1_000_000_000
  const INT_MAX := 0x7FFF_FFFF

  /** shm_eventgen_q is an unsigned 64-bit number. */
  const WORD := 0x1_0000_0000_0000_0000

  function Plus(a: nat, b: nat): int {
    if a + b < WORD then a + b else a + b - WORD
  }

  function Minus(a: nat, b: nat): int {
    if b <= a then a - b else a - b + WORD
  }

  /** flowoplib_eventlimit, _iopslimit and _opslimit (which differ only in what they sample), and
      _bwlimit. */
  datatype Kind = PerCall | PerOp | PerMegabyte

  /** A limiter: `bucket` is fo_tputbucket, `last` fo_tputlast.  `need` is the number of events it is
      waiting for, 0 if none.  `taken` and `first` record the events taken so far and the first
      sample that was not 0. */
  datatype Limiter = Limiter(kind: Kind, bucket: int, last: nat, need: nat, taken: nat, first: nat)

  /** Who holds shm_eventgen_lock: the producer, about to post `count` events, or limiter `i`, about to
      take what it needs; having tested the queue length, or also loaded it. */
  datatype Holder =
    | NoOne
    | Posts(count: nat)
    | Posting(loaded: int, count: nat)
    | Takes(i: nat)
    | Taking(loaded: int, i: nat)

  /** `enabled` is shm_eventgen_enabled and `q` shm_eventgen_q.  The next three record what happened:
      the events posted, those that a reset threw away, and how often the queue length wrapped round. */
  datatype State = State(
    enabled: bool, q: int, holder: Holder, posted: nat, wiped: int, wraps: nat, limiters: seq<Limiter>)
  {
    /** The events in play: those queued, or those the holder of the lock has loaded and will store. */
    function InPlay(): int {
      if holder.Posting? || holder.Taking? then holder.loaded else q
    }
    /** The limiter that holds the lock, and how much it is waiting for. */
    predicate Limited() {
      (holder.Takes? || holder.Taking?) && holder.i < |limiters|
    }
    function Wanted(): nat
      requires Limited()
    {
      limiters[holder.i].need
    }
  }

  datatype Action =
    | Start                            // the producer sees a positive rate for the first time
    | Reset                            // eventgen_reset
    | Tick(rate: nat, delta: nat)      // the producer wakes up after delta nanoseconds and tests the queue
    | Call(i: nat)                     // an eventlimit is called
    | Sample(i: nat, value: nat)       // another limiter is called and reads its counter
    | Test(i: nat)                     // a waiting limiter tests the queue
    | Load                             // the holder of the lock loads the queue length
    | Store                            // and stores the new one

  /** The events of one tick. */
  function Count(rate: nat, delta: nat): nat {
    rate * delta / NSEC_PER_SEC
  }

  /** What one event pays for, in the unit of the sampled counter. */
  function Unit(k: Kind): nat {
    if k.PerMegabyte? then MB else 1
  }

  /** How many events a limiter asks for to make up a shortfall. */
  function Needed(k: Kind, short: nat): nat
    requires 0 < short
  {
    if k.PerMegabyte? then short / MB + 1 else short
  }

  function Sampled(l: Limiter, value: nat): Limiter {
    if l.last == 0 then l.(last := value, first := value)
    else
      var bucket := l.bucket - (value - l.last);
      l.(bucket := bucket, last := value, need := if 0 <= bucket then 0 else Needed(l.kind, -bucket))
  }

  function Paid(l: Limiter): Limiter {
    l.(bucket := if l.kind.PerCall? then l.bucket else l.bucket + l.need * Unit(l.kind),
       need := 0, taken := l.taken + l.need)
  }

  /** A limiter is called again only when it has returned, and its counter never goes backwards.  Five
      times the rate and the events of one tick are of type int. */
  ghost predicate Enabled(s: State, a: Action) {
    match a
    case Start => true
    case Reset => true
    case Tick(rate, delta) =>
      0 < rate && 5 * rate <= INT_MAX && Count(rate, delta) <= INT_MAX && s.enabled && s.holder.NoOne?
    case Call(i) => i < |s.limiters| && s.limiters[i].kind.PerCall? && s.limiters[i].need == 0
    case Sample(i, v) =>
      i < |s.limiters| && !s.limiters[i].kind.PerCall? && s.limiters[i].need == 0 && s.limiters[i].last <= v
    case Test(i) => i < |s.limiters| && 0 < s.limiters[i].need && s.holder.NoOne?
    case Load => s.holder.Posts? || s.holder.Takes?
    case Store => (s.holder.Posting? || (s.holder.Taking? && s.holder.i < |s.limiters|)) && 0 <= s.holder.loaded
  }

  ghost function Apply(s: State, a: Action): State
    requires Enabled(s, a)
  {
    match a
    case Start => s.(enabled := true)
    case Reset => s.(q := 0, wiped := if s.holder.Posting? || s.holder.Taking? then s.wiped else s.wiped + s.q)
    case Tick(rate, delta) => if s.q < 5 * rate then s.(holder := Posts(Count(rate, delta))) else s
    case Call(i) => if !s.enabled then s else s.(limiters := s.limiters[i := s.limiters[i].(need := 1)])
    case Sample(i, v) => if !s.enabled then s else s.(limiters := s.limiters[i := Sampled(s.limiters[i], v)])
    case Test(i) => if s.limiters[i].need <= s.q then s.(holder := Takes(i)) else s
    case Load => s.(holder := if s.holder.Posts? then Posting(s.q, s.holder.count) else Taking(s.q, s.holder.i))
    case Store =>
      match s.holder
      case Posting(loaded, count) => s.(q := Plus(loaded, count), holder := NoOne, posted := s.posted + count)
      case Taking(loaded, i) =>
        var need := s.limiters[i].need;
        s.(q := Minus(loaded, need), holder := NoOne, wraps := if loaded < need then s.wraps + 1 else s.wraps,
           limiters := s.limiters[i := Paid(s.limiters[i])])
  }

  ghost function Step(s: State, a: Action): Option<State> {
    if Enabled(s, a) then Some(Apply(s, a)) else None
  }

  function Taken(ls: seq<Limiter>): nat {
    if ls == [] then 0 else Taken(ls[..|ls| - 1]) + ls[|ls| - 1].taken
  }

  /** No event is lost, and none made up but by a queue length that wraps round: what was posted is in
      play, was taken by some limiter or was thrown away by a reset. */
  ghost predicate Conserved(s: State) {
    s.posted + WORD * s.wraps == s.InPlay() + Taken(s.limiters) + s.wiped
  }

  /** Queue lengths are 64-bit numbers, and small ones where the producer has found them so; the
      limiter that holds the lock is waiting for some events. */
  ghost predicate InRange(s: State) {
    && 0 <= s.q < WORD
    && match s.holder
       case NoOne => true
       case Posts(count) => s.q <= INT_MAX && count <= INT_MAX
       case Posting(loaded, count) => 0 <= loaded <= INT_MAX && count <= INT_MAX
       case Takes(i) => s.Limited() && 0 < s.Wanted() < WORD
       case Taking(loaded, i) => s.Limited() && 0 < s.Wanted() < WORD && 0 <= loaded < WORD
  }

  /** The bucket is exactly what the events taken have paid for, less the counter's growth since the
      first sample; it is between 0 and the worth of one event unless the limiter is waiting, and
      then the events it waits for will bring it there. */
  ghost predicate Exact(l: Limiter) {
    match l.kind
    case PerCall => l.bucket == 0 && l.last == 0 && l.need <= 1
    case _ =>
      && l.first <= l.last && (l.last == 0 ==> l.taken == 0 && l.bucket == 0 && l.need == 0)
      && l.bucket == Unit(l.kind) * l.taken - (l.last - l.first)
      && (l.need == 0 ==> 0 <= l.bucket <= Top(l.kind))
      && (0 < l.need ==> l.bucket < 0 && l.need == Needed(l.kind, -l.bucket))
  }

  /** The most a bucket holds after a call: nothing for operations, one megabyte for bytes. */
  function Top(k: Kind): nat {
    if k.PerMegabyte? then MB else 0
  }

  ghost predicate Inv(s: State) {
    Conserved(s) && InRange(s) && forall i | 0 <= i < |s.limiters| :: Exact(s.limiters[i])
  }

  lemma {:induction false} TakenUpdate(ls: seq<Limiter>, i: nat, l: Limiter)
    requires i < |ls|
    ensures Taken(ls[i := l]) == Taken(ls) - ls[i].taken + l.taken
  {
    var n := |ls| - 1;
    if i == n {
      assert ls[i := l][..n] == ls[..n];
    } else {
      assert ls[i := l][..n] == ls[..n][i := l];
      TakenUpdate(ls[..n], i, l);
    }
  }

  /** Taking the needed events leaves the bucket at 0, or between 1 byte and one megabyte. */
  lemma PaidExact(l: Limiter)
    requires Exact(l) && 0 < l.need
    ensures Exact(Paid(l))
  {
  }

  lemma SampledExact(l: Limiter, v: nat)
    requires Exact(l) && !l.kind.PerCall? && l.need == 0 && l.last <= v
    ensures Exact(Sampled(l, v))
  {
  }

  lemma ConservedStep(s: State, a: Action)
    requires Inv(s) && Enabled(s, a)
    ensures Conserved(Apply(s, a))
  {
    hide Taken, Exact;
    match a {
      case Call(i) => TakenUpdate(s.limiters, i, s.limiters[i].(need := 1));
      case Sample(i, v) => TakenUpdate(s.limiters, i, Sampled(s.limiters[i], v));
      case Store =>
        if s.holder.Taking? {
          TakenUpdate(s.limiters, s.holder.i, Paid(s.limiters[s.holder.i]));
        }
      case _ =>
    }
  }

  lemma RangeStep(s: State, a: Action)
    requires InRange(s) && Enabled(s, a)
    ensures InRange(Apply(s, a))
  {
  }

  lemma ExactStep(s: State, a: Action, i: nat)
    requires Inv(s) && Enabled(s, a) && i < |s.limiters|
    ensures |Apply(s, a).limiters| == |s.limiters| && Exact(Apply(s, a).limiters[i])
  {
    hide Taken;
    assert Exact(s.limiters[i]);
    match a {
      case Sample(j, v) => SampledExact(s.limiters[j], v);
      case Store =>
        if s.holder.Taking? {
          PaidExact(s.limiters[s.holder.i]);
        }
      case _ =>
    }
  }

  lemma InvStep(s: State, a: Action)
    requires Inv(s) && Enabled(s, a)
    ensures Inv(Apply(s, a))
  {
    hide Taken, Exact, Apply, Conserved, InRange;
    ConservedStep(s, a);
    RangeStep(s, a);
    forall i | 0 <= i < |Apply(s, a).limiters| ensures Exact(Apply(s, a).limiters[i]) {
      SameLimiters(s, a);
      ExactStep(s, a, i);
    }
  }

  lemma SameLimiters(s: State, a: Action)
    requires Enabled(s, a)
    ensures |Apply(s, a).limiters| == |s.limiters|
  {
  }

  ghost predicate Possible(s: State, run: seq<Action>) {
    Runs.Possible(Step, s, run)
  }

  ghost function After(s: State, run: seq<Action>): State
    requires Possible(s, run)
  {
    Runs.After(Step, s, run)
  }

  lemma RunKeepsInv(s: State, run: seq<Action>)
    requires Inv(s) && Possible(s, run)
    ensures Inv(After(s, run))
  {
    forall t, a | Inv(t) && Step(t, a).Some? ensures Inv(Step(t, a).value) {
      InvStep(t, a);
    }
    Runs.Keeps(Step, t => Inv(t), _ => true, s, run);
  }

  /** No event posted and no limiter called yet. */
  ghost predicate Initial(s: State) {
    && !s.enabled && s.q == 0 && s.holder.NoOne? && s.posted == 0 && s.wiped == 0 && s.wraps == 0
    && forall i | 0 <= i < |s.limiters| :: s.limiters[i] == Limiter(s.limiters[i].kind, 0, 0, 0, 0, 0)
  }

  lemma {:induction false} NoneTaken(ls: seq<Limiter>)
    requires forall i | 0 <= i < |ls| :: ls[i].taken == 0
    ensures Taken(ls) == 0
  {
    if ls != [] {
      NoneTaken(ls[..|ls| - 1]);
    }
  }

  lemma InitialInv(s: State)
    requires Initial(s)
    ensures Inv(s)
  {
    NoneTaken(s.limiters);
  }

  /** The counter values that limiter `i` has sampled in a run. */
  ghost function SamplesOf(s: State, run: seq<Action>, i: nat): seq<nat>
    requires Possible(s, run)
    decreases |run|
  {
    if run == [] then []
    else (if run[0].Sample? && run[0].i == i && s.enabled then [run[0].value] else [])
         + SamplesOf(Apply(s, run[0]), run[1..], i)
  }

  /** How often eventlimit `i` has been called in a run, since the producer has a rate. */
  ghost function CallsOf(s: State, run: seq<Action>, i: nat): nat
    requires Possible(s, run)
    decreases |run|
  {
    if run == [] then 0
    else (if run[0].Call? && run[0].i == i && s.enabled then 1 else 0) + CallsOf(Apply(s, run[0]), run[1..], i)
  }

  function Latest(vs: seq<nat>): nat {
    if vs == [] then 0 else vs[|vs| - 1]
  }

  function FirstNonzero(vs: seq<nat>): nat {
    if vs == [] then 0 else if vs[0] != 0 then vs[0] else FirstNonzero(vs[1..])
  }

  /** What a step does to a limiter. */
  lemma LimiterStep(s: State, a: Action, i: nat)
    requires Inv(s) && Enabled(s, a) && i < |s.limiters|
    ensures |Apply(s, a).limiters| == |s.limiters|
    ensures var l, m := s.limiters[i], Apply(s, a).limiters[i];
      && m.kind == l.kind && l.last <= m.last
      && (if a.Sample? && a.i == i && s.enabled
          then m.last == a.value && m.first == (if l.last == 0 then a.value else l.first)
          else m.last == l.last && m.first == l.first)
      && (l.kind.PerCall? ==> m.taken + m.need == l.taken + l.need + if a.Call? && a.i == i && s.enabled then 1 else 0)
  {
    hide Taken, Conserved;
  }

  lemma {:induction false} SamplesTell(s: State, run: seq<Action>, i: nat)
    requires Inv(s) && Possible(s, run) && i < |s.limiters|
    ensures |After(s, run).limiters| == |s.limiters|
    ensures var l, m, vs := s.limiters[i], After(s, run).limiters[i], SamplesOf(s, run, i);
      && m.kind == l.kind && m.last == (if vs == [] then l.last else Latest(vs))
      && m.first == (if l.last != 0 || vs == [] then l.first else FirstNonzero(vs))
    decreases |run|
  {
    hide Inv, Apply, Enabled;
    if run != [] {
      var a, next := run[0], Apply(s, run[0]);
      LimiterStep(s, a, i);
      InvStep(s, a);
      SamplesTell(next, run[1..], i);
      var vs, rest := SamplesOf(s, run, i), SamplesOf(next, run[1..], i);
      if a.Sample? && a.i == i && s.enabled {
        assert vs == [a.value] + rest && vs[1..] == rest;
        assert rest != [] ==> Latest(vs) == Latest(rest);
        assert rest == [] ==> FirstNonzero(rest) == 0;
      } else {
        assert vs == rest;
      }
    }
  }

  lemma {:induction false} CallsTell(s: State, run: seq<Action>, i: nat)
    requires Inv(s) && Possible(s, run) && i < |s.limiters| && s.limiters[i].kind.PerCall?
    ensures |After(s, run).limiters| == |s.limiters|
    ensures var l, m := s.limiters[i], After(s, run).limiters[i];
      m.taken + m.need == l.taken + l.need + CallsOf(s, run, i)
    decreases |run|
  {
    hide Inv, Apply, Enabled;
    if run != [] {
      LimiterStep(s, run[0], i);
      InvStep(s, run[0]);
      CallsTell(Apply(s, run[0]), run[1..], i);
    }
  }

  /** The buckets after any run.  A limiter that is not waiting has taken, if it is an eventlimit, one
      event for each time it was called; for operations, one for each operation from its first nonzero
      sample to its latest; for bytes, as many as pay for all bytes between these samples and for at
      most one megabyte more. */
  lemma Budgets(s: State, run: seq<Action>, i: nat)
    requires Initial(s) && Possible(s, run) && i < |s.limiters|
    ensures |After(s, run).limiters| == |s.limiters|
    ensures var l, vs := After(s, run).limiters[i], SamplesOf(s, run, i);
      l.need == 0 ==>
        match s.limiters[i].kind
        case PerCall => l.taken == CallsOf(s, run, i)
        case PerOp => l.bucket == 0 && l.taken == Latest(vs) - FirstNonzero(vs)
        case PerMegabyte =>
          l.bucket == MB * l.taken - (Latest(vs) - FirstNonzero(vs)) && 0 <= l.bucket <= MB
  {
    hide After, Possible, SamplesOf, CallsOf, Inv, Latest, FirstNonzero, Exact;
    InitialInv(s);
    RunKeepsInv(s, run);
    SamplesTell(s, run, i);
    NoSamples();
    if s.limiters[i].kind.PerCall? {
      CallsTell(s, run, i);
    }
    InvExact(After(s, run), i);
    var l := After(s, run).limiters[i];
    if l.need == 0 {
      PaidUp(l);
    }
  }

  lemma NoSamples()
    ensures Latest([]) == 0 && FirstNonzero([]) == 0
  {
  }

  lemma InvExact(s: State, i: nat)
    requires Inv(s) && i < |s.limiters|
    ensures Exact(s.limiters[i])
  {
  }

  lemma PaidUp(l: Limiter)
    requires Exact(l) && l.need == 0
    ensures l.kind.PerOp? ==> l.bucket == 0 && l.taken == l.last - l.first
    ensures l.kind.PerMegabyte? ==> l.bucket == MB * l.taken - (l.last - l.first) && 0 <= l.bucket <= MB
  {
    var u := Unit(l.kind);
    if l.kind.PerOp? {
      assert u == 1 && u * l.taken == l.taken;
    } else if l.kind.PerMegabyte? {
      assert u == MB && u * l.taken == MB * l.taken;
    }
  }

  /** A limiter whose test finds enough events takes exactly those, and with too few it does nothing. */
  lemma TakesWhole(s: State, i: nat)
    requires InRange(s) && s.holder.NoOne? && i < |s.limiters| && 0 < s.limiters[i].need
    ensures s.q < s.limiters[i].need ==> Apply(s, Test(i)) == s
    ensures s.limiters[i].need <= s.q ==>
      && Enabled(Apply(s, Test(i)), Load) && Enabled(Apply(Apply(s, Test(i)), Load), Store)
      && var t := Apply(Apply(Apply(s, Test(i)), Load), Store);
      && t.q == s.q - s.limiters[i].need && t.limiters[i].need == 0 && t.holder.NoOne?
      && t.limiters[i].taken == s.limiters[i].taken + s.limiters[i].need
  {
  }

  /** A tick posts the whole number of events that are due after `delta` nanoseconds, if and only if it
      finds less than five seconds' events. */
  lemma TickPosts(s: State, rate: nat, delta: nat)
    requires InRange(s) && Enabled(s, Tick(rate, delta))
    ensures 5 * rate <= s.q ==> Apply(s, Tick(rate, delta)) == s
    ensures s.q < 5 * rate ==> Enabled(Apply(s, Tick(rate, delta)), Load)
    ensures s.q < 5 * rate ==> Enabled(Apply(Apply(s, Tick(rate, delta)), Load), Store)
    ensures s.q < 5 * rate ==> var t := Apply(Apply(Apply(s, Tick(rate, delta)), Load), Store);
      && t.posted - s.posted == t.q - s.q && t.holder.NoOne?
      && (t.posted - s.posted) * NSEC_PER_SEC <= rate * delta < (t.posted - s.posted + 1) * NSEC_PER_SEC
  {
    CountExact(rate, delta);
  }

  lemma CountExact(rate: nat, delta: nat)
    ensures Count(rate, delta) * NSEC_PER_SEC <= rate * delta < (Count(rate, delta) + 1) * NSEC_PER_SEC
  {
    Goes(rate * delta, NSEC_PER_SEC, Count(rate, delta));
  }

  /** The producer has found room for events that it has not stored yet. */
  function Pending(s: State): nat {
    if s.holder.Posts? || s.holder.Posting? then s.holder.count else 0
  }

  /** The event-nanoseconds due in a run: rate times elapsed time, of those ticks that find room. */
  ghost function Due(s: State, run: seq<Action>): nat
    requires Possible(s, run)
    decreases |run|
  {
    if run == [] then 0
    else
      (if run[0].Tick? && s.q < 5 * run[0].rate then run[0].rate * run[0].delta else 0)
      + Due(Apply(s, run[0]), run[1..])
  }

  function Ticks(run: seq<Action>): nat {
    if run == [] then 0 else (if run[0].Tick? then 1 else 0) + Ticks(run[1..])
  }

  lemma DueStep(s: State, a: Action)
    requires Enabled(s, a)
    ensures var t := Apply(s, a);
      t.posted + Pending(t) == s.posted + Pending(s) + if a.Tick? && s.q < 5 * a.rate then Count(a.rate, a.delta) else 0
  {
    hide Count;
  }

  /** Over any run, the events posted and about to be are those due, less a part of one for each tick. */
  lemma {:induction false} PostedIsDue(s: State, run: seq<Action>)
    requires Possible(s, run)
    ensures var n := After(s, run).posted + Pending(After(s, run)) - s.posted - Pending(s);
      n * NSEC_PER_SEC <= Due(s, run) <= n * NSEC_PER_SEC + Ticks(run) * (NSEC_PER_SEC - 1)
    decreases |run|
  {
    hide Apply, Enabled, Pending, Count;
    if run != [] {
      var a := run[0];
      DueStep(s, a);
      if a.Tick? {
        CountExact(a.rate, a.delta);
      }
      PostedIsDue(Apply(s, a), run[1..]);
    }
  }

  function Elapsed(run: seq<Action>): nat {
    if run == [] then 0 else (if run[0].Tick? then run[0].delta else 0) + Elapsed(run[1..])
  }

  /** Every tick of the run has this rate and finds less than five seconds' events. */
  ghost predicate Steady(s: State, run: seq<Action>, rate: nat)
    requires Possible(s, run)
    decreases |run|
  {
    run == [] ||
    ((run[0].Tick? ==> run[0].rate == rate && s.q < 5 * rate) && Steady(Apply(s, run[0]), run[1..], rate))
  }

  lemma {:induction false} SteadyDue(s: State, run: seq<Action>, rate: nat)
    requires Possible(s, run) && Steady(s, run, rate)
    ensures Due(s, run) == rate * Elapsed(run)
    decreases |run|
  {
    hide Apply, Enabled;
    if run != [] {
      SteadyDue(Apply(s, run[0]), run[1..], rate);
      Distribute(rate, if run[0].Tick? then run[0].delta else 0, Elapsed(run[1..]));
    }
  }

  /** While no tick finds the queue full, the events posted differ from rate times elapsed time by less
      than one for each tick. */
  lemma AverageRate(s: State, run: seq<Action>, rate: nat)
    requires Possible(s, run) && Steady(s, run, rate) && Pending(s) == 0 && Pending(After(s, run)) == 0
    ensures var n := After(s, run).posted - s.posted;
      n * NSEC_PER_SEC <= rate * Elapsed(run) <= n * NSEC_PER_SEC + Ticks(run) * (NSEC_PER_SEC - 1)
  {
    PostedIsDue(s, run);
    SteadyDue(s, run, rate);
  }

  /** `run` holds no reset. */
  ghost predicate NoReset(run: seq<Action>) {
    forall k | 0 <= k < |run| :: !run[k].Reset?
  }

  ghost predicate Stores(run: seq<Action>) {
    exists k :: 0 <= k < |run| && run[k].Store?
  }

  /** A limiter has passed the test and will store less than nothing: a reset came before its load. */
  ghost predicate Doomed(s: State) {
    s.Limited() && s.InPlay() < s.Wanted()
  }

  /** What a step other than a reset does to the number of wraps. */
  lemma WrapStep(s: State, a: Action)
    requires InRange(s) && Enabled(s, a) && !a.Reset?
    ensures var t := Apply(s, a);
      && t.wiped == s.wiped
      && t.wraps == s.wraps + (if Doomed(s) && a.Store? then 1 else 0)
      && (Doomed(t) <==> Doomed(s) && !a.Store?)
  {
  }

  /** Without a further reset, the queue length wraps round exactly once if the holder of the lock is
      doomed and gets to its store, and not at all otherwise. */
  lemma {:induction false} WrapsOnce(s: State, run: seq<Action>)
    requires InRange(s) && Possible(s, run) && NoReset(run)
    ensures After(s, run).wiped == s.wiped
    ensures After(s, run).wraps == s.wraps + if Doomed(s) && Stores(run) then 1 else 0
    decreases |run|
  {
    hide Apply, InRange, Doomed;
    if run != [] {
      var a, rest := run[0], run[1..];
      assert !a.Reset? && Enabled(s, a);
      WrapStep(s, a);
      RangeStep(s, a);
      WrapsOnce(Apply(s, a), rest);
      if Stores(rest) {
        var k :| 0 <= k < |rest| && rest[k].Store?;
        assert run[k + 1].Store?;
      } else if !a.Store? {
        assert forall k | 0 < k < |run| :: run[k] == rest[k - 1];
      }
    }
  }

  /** Since a reset, which may happen at any time, the events posted are those in play and those the
      limiters have taken, if and only if the reset came neither between the load and the store of an
      update that found events, which undoes it, nor between the test of a limiter and a store that
      has happened since, which makes the queue length wrap round. */
  lemma ConservedSinceReset(s: State, before: seq<Action>, run: seq<Action>)
    requires Initial(s) && Possible(s, before) && Possible(Apply(After(s, before), Reset), run) && NoReset(run)
    ensures var at := Apply(After(s, before), Reset); var now := After(at, run);
      now.posted - at.posted == now.InPlay() + Taken(now.limiters) - Taken(at.limiters)
      <==> at.InPlay() == 0 && !(Doomed(at) && Stores(run))
  {
    InitialInv(s);
    RunKeepsInv(s, before);
    InvStep(After(s, before), Reset);
    var at := Apply(After(s, before), Reset);
    RunKeepsInv(at, run);
    WrapsOnce(at, run);
    hide Taken, Stores, Doomed, After;
    assert Conserved(at) && Conserved(After(at, run)) && InRange(at) && 0 <= at.InPlay() < WORD;
  }

  /** At a reset nothing is in play but for a holder of the lock that has loaded the queue length, and
      a limiter that has not is doomed. */
  lemma AtReset(s: State)
    requires Inv(s)
    ensures var at := Apply(s, Reset);
      && at.InPlay() == (if s.holder.Posting? || s.holder.Taking? then s.holder.loaded else 0)
      && (s.holder.Takes? ==> Doomed(at))
  {
  }

  /** Every tick of the run has a rate of at most `rate` and posts at most `count` events. */
  ghost predicate Paced(run: seq<Action>, rate: nat, count: nat) {
    forall k | 0 <= k < |run| && run[k].Tick? :: run[k].rate <= rate && Count(run[k].rate, run[k].delta) <= count
  }

  /** The queue holds less than five seconds' events and those of one tick. */
  ghost predicate Low(s: State, rate: nat, count: nat) {
    s.q == 0 || s.q < 5 * rate + count
  }

  /** It does so throughout a run. */
  ghost predicate AlwaysLow(s: State, run: seq<Action>, rate: nat, count: nat)
    requires Possible(s, run)
    decreases |run|
  {
    Low(s, rate, count) && (run == [] || AlwaysLow(Apply(s, run[0]), run[1..], rate, count))
  }

  /** Somewhere in the run a reset comes between the test of a limiter and its load, and the limiter
      gets to its store. */
  ghost predicate Races(s: State, run: seq<Action>)
    requires Possible(s, run)
    decreases |run|
  {
    run != [] && ((run[0].Reset? && s.holder.Takes? && Stores(run[1..])) || Races(Apply(s, run[0]), run[1..]))
  }

  /** The bound, and what the holder of the lock has found and loaded. */
  ghost predicate Bounded(s: State, rate: nat, count: nat) {
    && Low(s, rate, count)
    && match s.holder
       case NoOne => true
       case Posts(c) => s.q < 5 * rate && c <= count
       case Posting(loaded, c) => loaded < 5 * rate && c <= count
       case Takes(_) => s.Limited() && s.Wanted() <= s.q
       case Taking(loaded, _) => s.Limited() && s.Wanted() <= loaded < 5 * rate + count
  }

  lemma BoundedStep(s: State, a: Action, rate: nat, count: nat)
    requires InRange(s) && Bounded(s, rate, count) && Enabled(s, a)
    requires a.Tick? ==> a.rate <= rate && Count(a.rate, a.delta) <= count
    ensures !(a.Reset? && s.holder.Takes?) ==> Bounded(Apply(s, a), rate, count)
    ensures a.Reset? && s.holder.Takes? ==>
      Doomed(Apply(s, a)) && Apply(s, a).Wanted() < 5 * rate + count
  {
  }

  /** A doomed holder stays doomed, and what it waits for stays the same, up to its store, which
      leaves the queue length far above the bound. */
  lemma DoomedStep(s: State, a: Action, rate: nat, count: nat)
    requires InRange(s) && Doomed(s) && s.Wanted() < 5 * rate + count && 2 * (5 * rate + count) <= WORD && Enabled(s, a)
    ensures var t := Apply(s, a);
      if a.Store? then !Low(t, rate, count) else Doomed(t) && t.Wanted() == s.Wanted()
  {
  }

  lemma {:induction false} DoomComes(s: State, run: seq<Action>, rate: nat, count: nat)
    requires InRange(s) && Doomed(s) && s.Wanted() < 5 * rate + count && 2 * (5 * rate + count) <= WORD
    requires Possible(s, run) && Stores(run)
    ensures !AlwaysLow(s, run, rate, count)
    decreases |run|
  {
    hide Apply, InRange, Doomed, Low;
    var k :| 0 <= k < |run| && run[k].Store?;
    DoomedStep(s, run[0], rate, count);
    RangeStep(s, run[0]);
    if !run[0].Store? {
      assert run[1..][k - 1].Store?;
      DoomComes(Apply(s, run[0]), run[1..], rate, count);
    }
  }

  /** Up to the store a doomed holder keeps the lock, and only a reset changes the queue length. */
  lemma WaitingStep(s: State, a: Action, rate: nat, count: nat)
    requires Doomed(s) && InRange(s) && Low(s, rate, count) && Enabled(s, a) && !a.Store?
    ensures Doomed(Apply(s, a)) && Low(Apply(s, a), rate, count)
  {
  }

  lemma {:induction false} DoomWaits(s: State, run: seq<Action>, rate: nat, count: nat)
    requires InRange(s) && Doomed(s) && Low(s, rate, count) && Possible(s, run) && !Stores(run)
    ensures AlwaysLow(s, run, rate, count) && !Races(s, run)
    decreases |run|
  {
    hide Apply, InRange, Doomed, Low;
    if run != [] {
      assert !run[0].Store?;
      assert forall k | 0 <= k < |run[1..]| :: run[1..][k] == run[k + 1];
      WaitingStep(s, run[0], rate, count);
      RangeStep(s, run[0]);
      DoomWaits(Apply(s, run[0]), run[1..], rate, count);
    }
  }

  /** The producer keeps at most five seconds' events queued, give or take one tick, throughout a run
      if and only if no reset comes between the test of a limiter and its load, or the limiter never
      gets to its store. */
  lemma {:induction false} QueueBound(s: State, run: seq<Action>, rate: nat, count: nat)
    requires InRange(s) && Bounded(s, rate, count) && Possible(s, run)
    requires Paced(run, rate, count) && 2 * (5 * rate + count) <= WORD
    ensures AlwaysLow(s, run, rate, count) <==> !Races(s, run)
    decreases |run|
  {
    hide Apply, InRange, Doomed, Low, Bounded;
    LowIfBounded(s, rate, count);
    if run != [] {
      var a, next, rest := run[0], Apply(s, run[0]), run[1..];
      assert a.Tick? ==> a.rate <= rate && Count(a.rate, a.delta) <= count;
      BoundedStep(s, a, rate, count);
      RangeStep(s, a);
      assert forall k | 0 <= k < |rest| :: rest[k] == run[k + 1];
      if a.Reset? && s.holder.Takes? {
        if Stores(rest) {
          DoomComes(next, rest, rate, count);
        } else {
          ResetIsLow(s, rate, count);
          DoomWaits(next, rest, rate, count);
        }
      } else {
        QueueBound(next, rest, rate, count);
      }
    }
  }

  lemma ResetIsLow(s: State, rate: nat, count: nat)
    ensures Low(Apply(s, Reset), rate, count)
  {
  }

  lemma LowIfBounded(s: State, rate: nat, count: nat)
    requires Bounded(s, rate, count)
    ensures Low(s, rate, count)
  {
  }

  /** One eventlimit; it is called, one event is posted, and it passes its test. */
  lemma AboutToTake() returns (s: State, run: seq<Action>)
    ensures Initial(s) && Possible(s, run)
    ensures var e := After(s, run); e.q == 1 && e.holder == Takes(0) && |e.limiters| == 1 && e.limiters[0].need == 1
  {
    s := State(false, 0, NoOne, 0, 0, 0, [Limiter(PerCall, 0, 0, 0, 0, 0)]);
    hide After;
    assert Possible(s, []) && After(s, []) == s by { Nothing(s); }
    run := Then(s, [], Start);
    run := Then(s, run, Call(0));
    run := Then(s, run, Tick(1, NSEC_PER_SEC));
    run := Then(s, run, Load);
    run := Then(s, run, Store);
    run := Then(s, run, Test(0));
  }

  /** A reset after the load of that limiter is undone by its store. */
  lemma ResetUndone() returns (s: State, before: seq<Action>)
    ensures Initial(s) && Possible(s, before) && After(s, before).holder == Taking(1, 0)
    ensures Possible(Apply(After(s, before), Reset), [Store])
  {
    hide After;
    s, before := AboutToTake();
    before := Then(s, before, Load);
    var at := Apply(After(s, before), Reset);
    Nothing(at);
    var _ := Then(at, [], Store);
    assert [] + [Store] == [Store];
  }

  /** A reset before it leaves the largest queue length there is: from then on the producer posts
      nothing and no limiter waits. */
  lemma QueueWraps() returns (s: State, run: seq<Action>)
    ensures Initial(s) && Possible(s, run) && Races(s, run) && After(s, run).q == WORD - 1
  {
    hide After, Races;
    var start;
    s, start := AboutToTake();
    run := Then(s, start, Reset);
    run := Then(s, run, Load);
    run := Then(s, run, Store);
    assert start + [Reset, Load, Store] == run;
    RacesAfter(s, start, [Reset, Load, Store]);
  }

  lemma {:induction false} RacesAfter(s: State, start: seq<Action>, rest: seq<Action>)
    requires Possible(s, start + rest) && Possible(s, start) && After(s, start).holder.Takes?
    requires |rest| == 3 && rest[0].Reset? && rest[2].Store?
    ensures Races(s, start + rest)
    decreases |start|
  {
    var run := start + rest;
    if start == [] {
      assert run == rest && rest[1..][1].Store?;
    } else {
      assert run[0] == start[0] && run[1..] == start[1..] + rest;
      RacesAfter(Apply(s, start[0]), start[1..], rest);
    }
  }

  lemma Nothing(s: State)
    ensures Possible(s, []) && After(s, []) == s
  {
  }

  lemma Then(s: State, run: seq<Action>, a: Action) returns (run': seq<Action>)
    requires Possible(s, run) && Enabled(After(s, run), a)
    ensures run' == run + [a] && Possible(s, run') && After(s, run') == Apply(After(s, run), a)
  {
    Runs.OneMore(Step, s, run, a);
    run' := run + [a];
  }

  lemma TakenStep(s: State, a: Action)
    requires Enabled(s, a)
    ensures Taken(s.limiters) <= Taken(Apply(s, a).limiters)
  {
    hide Taken;
    match a {
      case Call(i) => TakenUpdate(s.limiters, i, s.limiters[i].(need := 1));
      case Sample(i, v) => TakenUpdate(s.limiters, i, Sampled(s.limiters[i], v));
      case Store =>
        if s.holder.Taking? {
          TakenUpdate(s.limiters, s.holder.i, Paid(s.limiters[s.holder.i]));
        }
      case _ =>
    }
  }

  lemma TakenGrows(s: State, run: seq<Action>)
    requires Possible(s, run)
    ensures Taken(s.limiters) <= Taken(After(s, run).limiters)
  {
    forall t, a | Step(t, a).Some? ensures Taken(t.limiters) <= Taken(Step(t, a).value.limiters) {
      TakenStep(t, a);
    }
    Runs.Keeps(Step, (t: State) => Taken(s.limiters) <= Taken(t.limiters), _ => true, s, run);
  }

  /** After the queue length has wrapped round, and until the limiters have taken all but the number of
      events that an int can count, the producer posts nothing, for any number of ticks. */
  lemma {:induction false} Flooded(s: State, run: seq<Action>)
    requires Inv(s) && Possible(s, run) && NoReset(run) && !Doomed(s) && !s.holder.Posts? && !s.holder.Posting?
    requires INT_MAX + Taken(After(s, run).limiters) < s.InPlay() + Taken(s.limiters)
    ensures After(s, run).posted == s.posted
    decreases |run|
  {
    hide Taken, Exact, Doomed;
    TakenGrows(s, run);
    if run != [] {
      var a, next, rest := run[0], Apply(s, run[0]), run[1..];
      assert !a.Reset?;
      WrapStep(s, a);
      InvStep(s, a);
      assert next.posted == s.posted && !next.holder.Posts? && !next.holder.Posting?;
      assert forall k | 0 <= k < |rest| :: rest[k] == run[k + 1];
      Flooded(next, rest);
    }
  }
}
