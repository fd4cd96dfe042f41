/** Running flowops: a thread goes round its list, a composite makes one pass through its inner list
    each time it is called, and every flowop is repeated as often as its iters say. */
module FlowopExec {
  import opened Sequences
  import opened FlowopLists

  const OK := 0
  const DONE := 1
  const ERROR := -1
  const NORSC := -2

  const ABORT_ERROR := 1
  const ABORT_DONE := 2
  const ABORT_RSRC := 3

  const MODE_Q1STDONE := 1
  const MODE_QALLDONE := 2

  /** A call of a primitive flowop, from the thread's own list or from inside a composite. */
  datatype Call = Call(func: int, nested: bool)

  function Times(calls: seq<Call>, n: int): seq<Call>
    decreases if n < 0 then 0 else n
  {
    if n <= 0 then [] else Times(calls, n - 1) + calls
  }

  /** The flattened expansion of a list: what it would call if every call returned OK. */
  function Expand(ops: seq<Op>, nested: bool): seq<Call>
    decreases ops, 1
  {
    if ops == [] then []
    else Expand(ops[..|ops| - 1], nested) + Iterated(ops[|ops| - 1], nested)
  }

  function Expansion(op: Op, nested: bool): seq<Call>
    decreases op, 0
  {
    if op.attrs.composite then Expand(op.inner, true) else [Call(op.attrs.func, nested)]
  }

  function Iterated(op: Op, nested: bool): seq<Call>
    decreases op, 1
  {
    Times(Expansion(op, nested), op.attrs.iters)
  }

  /** What ends a pass.  A composite passes over codes it does not know; the thread does not. */
  predicate Stops(nested: bool, code: int) {
    if nested then code == DONE || code == NORSC || code == ERROR else code != OK
  }

  /** From call number `at` on, none of these calls ends the run. */
  ghost predicate Quiet(calls: seq<Call>, at: nat, outcome: nat -> int) {
    forall j | 0 <= j < |calls| :: !Stops(calls[j].nested, outcome(at + j))
  }

  /** All of `calls` were made, and none ended the run. */
  ghost predicate Through(calls: seq<Call>, at: nat, outcome: nat -> int, made: seq<Call>) {
    made == calls && Quiet(calls, at, outcome)
  }

  /** `calls` were cut after the first one that ended the run, and `ret` is what that call returned. */
  ghost predicate CutShort(calls: seq<Call>, at: nat, outcome: nat -> int, made: seq<Call>, ret: int) {
    && 0 < |made| && made <= calls && Quiet(made[..|made| - 1], at, outcome)
    && ret == outcome(at + |made| - 1) && Stops(made[|made| - 1].nested, ret)
  }

  /** An abort from outside was noticed, between two calls. */
  ghost predicate Interrupted(calls: seq<Call>, at: nat, outcome: nat -> int, made: seq<Call>, ret: int) {
    made <= calls && Quiet(made, at, outcome) && ret == DONE
  }

  ghost predicate Ended(calls: seq<Call>, at: nat, outcome: nat -> int, made: seq<Call>, ret: int, aborted: bool) {
    CutShort(calls, at, outcome, made, ret) || (aborted && Interrupted(calls, at, outcome, made, ret))
  }

  /** What follows a run that went through. */
  lemma {:induction false} ThroughThen(first: seq<Call>, second: seq<Call>, at: nat, outcome: nat -> int,
                                       made: seq<Call>, ret: int,
                    aborted: bool)
    requires Quiet(first, at, outcome)
    ensures Through(second, at + |first|, outcome, made) ==> Through(first + second, at, outcome, first + made)
    ensures Ended(second, at + |first|, outcome, made, ret, aborted)
      ==> Ended(first + second, at, outcome, first + made, ret, aborted)
  {
    var both := first + made;
    if Quiet(made, at + |first|, outcome) {
      QuietJoin(first, made, at, outcome);
    }
    if made != [] && Quiet(made[..|made| - 1], at + |first|, outcome) {
      QuietJoin(first, made[..|made| - 1], at, outcome);
      assert both[..|both| - 1] == first + made[..|made| - 1];
    }
    if made <= second {
      assert both <= first + second;
    }
  }

  lemma {:induction false} QuietJoin(first: seq<Call>, second: seq<Call>, at: nat, outcome: nat -> int)
    requires Quiet(first, at, outcome) && Quiet(second, at + |first|, outcome)
    ensures Quiet(first + second, at, outcome)
  {
    var both := first + second;
    forall j | 0 <= j < |both| ensures !Stops(both[j].nested, outcome(at + j)) {
      if |first| <= j {
        assert both[j] == second[j - |first|];
        assert at + |first| + (j - |first|) == at + j;
      }
    }
  }

  /** `todo` was begun after the calls `before`: if `ret` does not end the run all of it has been
      called by now, else it has been called up to the point where the run ended. */
  ghost predicate Did(before: seq<Call>, now: seq<Call>, todo: seq<Call>, nested: bool, ret: int,
                      outcome: nat -> int, aborted: bool)
  {
    && before <= now
    && if Stops(nested, ret) then Ended(todo, |before|, outcome, now[|before|..], ret, aborted)
       else Through(todo, |before|, outcome, now[|before|..])
  }

  lemma {:induction false} DidThen(before: seq<Call>, mid: seq<Call>, now: seq<Call>,
                                   first: seq<Call>, second: seq<Call>,
                                   nested: bool, ret: int, outcome: nat -> int, aborted: bool, aborted': bool)
    requires Did(before, mid, first, nested, OK, outcome, aborted)
    requires Did(mid, now, second, nested, ret, outcome, aborted')
    ensures Did(before, now, first + second, nested, ret, outcome, aborted')
  {
    assert |mid| == |before| + |first|;
    assert now[|before|..] == first + now[|mid|..];
    ThroughThen(first, second, |before|, outcome, now[|mid|..], ret, aborted');
  }

  /** What follows the end of a run is not reached. */
  lemma {:induction false} DidEnd(before: seq<Call>, now: seq<Call>, todo: seq<Call>, more: seq<Call>,
                                  nested: bool, ret: int, outcome: nat -> int, aborted: bool)
    requires Did(before, now, todo, nested, ret, outcome, aborted) && Stops(nested, ret) && todo <= more
    ensures Did(before, now, more, nested, ret, outcome, aborted)
  {
  }

  lemma {:induction false} TimesPrefix(calls: seq<Call>, i: int, n: int)
    requires 0 <= i <= n
    ensures Times(calls, i) <= Times(calls, n)
    decreases n
  {
    if i < n {
      TimesPrefix(calls, i, n - 1);
    }
  }

  lemma {:induction false} ExpandPrefix(ops: seq<Op>, k: nat, nested: bool)
    requires k <= |ops|
    ensures Expand(ops[..k], nested) <= Expand(ops, nested)
  {
    if k < |ops| {
      ExpandPrefix(ops[..|ops| - 1], k, nested);
      assert ops[..|ops| - 1][..k] == ops[..k];
    } else {
      assert ops[..k] == ops;
    }
  }

  /** Without an abort from outside, the calls made and the result are determined: the expansion up to
      and including the first call that stops the run. */
  lemma {:induction false} CutUnique(calls: seq<Call>, at: nat, outcome: nat -> int,
                                     made: seq<Call>, ret: int, made': seq<Call>, ret': int)
    requires CutShort(calls, at, outcome, made, ret)
    requires CutShort(calls, at, outcome, made', ret') || Through(calls, at, outcome, made')
    ensures CutShort(calls, at, outcome, made', ret') && made == made' && ret == ret'
  {
    assert made[|made| - 1] == calls[|made| - 1];
  }

  /** A thread's run.  `outcome` gives what each primitive call returns, by its number; `patience` is
      the number of times tf_abort and shm_f_abort will still be found clear. */
  class Run {
    const outcome: nat -> int
    const mode: int
    var calls: seq<Call>
    var patience: nat
    var laps: nat           // tf_stats.fs_count
    var fAbort: int         // shm_f_abort

    constructor (outcome: nat -> int, mode: int, patience: nat)
      ensures this.outcome == outcome && this.mode == mode && this.patience == patience
      ensures calls == [] && laps == 0 && fAbort == 0
    {
      this.outcome, this.mode, this.patience := outcome, mode, patience;
      calls, laps, fAbort := [], 0, 0;
    }

    /** Looks for an abort from outside. */
    method Aborted() returns (r: bool)
      modifies this`patience
      ensures r <==> old(patience) == 0
      ensures patience == if old(patience) == 0 then 0 else old(patience) - 1
    {
      r := patience == 0;
      if !r {
        patience := patience - 1;
      }
    }

    /** What has been called since `before`. */
    ghost predicate Since(before: seq<Call>, todo: seq<Call>, nested: bool, ret: int)
      reads this
    {
      Did(before, calls, todo, nested, ret, outcome, patience == 0)
    }

    /** (*fo_func)(threadflow, flowop). */
    method Invoke(fo: Flowop, nested: bool, ghost t: Fop) returns (ret: int)
      requires Holds(fo, t)
      modifies this`calls, this`patience
      ensures Since(old(calls), Expansion(Erase(t), nested), nested, ret) && patience <= old(patience)
      decreases t, 0
    {
      if fo.attrs.composite {
        ret := Composite(fo, t);
      } else {
        ret := outcome(|calls|);
        calls := calls + [Call(fo.attrs.func, nested)];
        assert calls[|old(calls)|..] == [Call(fo.attrs.func, nested)];
      }
    }

    /** The loop over fo_iters, in flowop_composite and in flowop_start. */
    method Repeat(fo: Flowop, nested: bool, ghost t: Fop) returns (ret: int)
      requires Holds(fo, t)
      modifies this`calls, this`patience
      ensures Since(old(calls), Iterated(Erase(t), nested), nested, ret) && patience <= old(patience)
      ensures ret == OK || Stops(nested, ret)
      decreases t, 1
    {
      var i, count := 0, fo.attrs.iters;
      ghost var once := Expansion(Erase(t), nested);
      NodesAllocated(t.inner);
      while i < count
        invariant 0 <= i && (0 < i ==> i <= count) && patience <= old(patience) && Holds(fo, t)
        invariant Since(old(calls), Times(once, i), nested, OK)
      {
        ghost var mid, quit := calls, patience == 0;
        ret := Invoke(fo, nested, t);
        DidThen(old(calls), mid, calls, Times(once, i), once, nested, ret, outcome, quit, patience == 0);
        if Stops(nested, ret) {
          TimesPrefix(once, i + 1, count);
          DidEnd(old(calls), calls, Times(once, i + 1), Times(once, count), nested, ret, outcome, patience == 0);
          return;
        }
        i := i + 1;
      }
      ret := OK;
    }

    /** flowop_composite: one pass through the inner list. */
    method Composite(fo: Flowop, ghost t: Fop) returns (ret: int)
      requires Holds(fo, t)
      modifies this`calls, this`patience
      ensures Since(old(calls), Expand(Program(t.inner), true), true, ret) && patience <= old(patience)
      ensures ret == OK || Stops(true, ret)
      decreases t.inner, 2
    {
      hide Segment, Nodes, Did, Expand, Iterated, Program, Matches;
      var inner := fo.compFops;
      ghost var k, ops := 0, Program(t.inner);
      Links(fo.compFops, t.inner, null, 0);
      NodesAllocated(t.inner);
      DidNothing(calls, ops, true, outcome, patience == 0);
      while inner != null
        invariant 0 <= k <= |t.inner| && inner == At(t.inner, k) && patience <= old(patience)
        invariant Segment(fo.compFops, t.inner, null)
        invariant Since(old(calls), Expand(ops[..k], true), true, OK)
        decreases |t.inner| - k
      {
        ghost var mid, quit := calls, patience == 0;
        var abort := Aborted();
        if abort {
          DidAbort(old(calls), calls, ops, k, outcome);
          return DONE;
        }
        Links(fo.compFops, t.inner, null, k);
        ret := Repeat(inner, true, t.inner[k]);
        DidOneMore(old(calls), mid, calls, t.inner, k, true, ret, outcome, quit, patience == 0);
        if ret != OK {
          return;
        }
        inner, k := inner.execNext, k + 1;
      }
      assert ops[..k] == ops;
      ret := OK;
    }

    /** The worker loop of flowop_start: round and round the thread's list.  If it ends by an outcome,
        the calls made are the repeated expansion cut after the first outcome that stops it, and that
        outcome is the result; it is the first outcome that is not OK exactly if no composite passed
        over a code it does not know.  Otherwise an abort from outside was found, between two flowops. */
    method Work(head: Flowop?, ghost ts: seq<Fop>) returns (ret: int, ghost k: nat)
      requires Segment(head, ts, null)
      modifies this
      ensures k <= |ts| && old(laps) <= laps && (ret == OK ==> patience == 0 || ts == [])
      ensures Going(old(calls), Program(ts), laps - old(laps), k, ret)
      ensures ret == 0 ==> fAbort == old(fAbort)
      ensures ret == 1 ==> fAbort == 2
      ensures ret == -2 ==> fAbort == if mode == 1 then 3 else if mode == 2 then old(fAbort) else 1
      ensures ret != 0 && ret != 1 && ret != -2 ==> fAbort == 1
      ensures ret != OK ==>
        var lapped := Times(Expand(Program(ts), false), laps - old(laps) + 1);
        var made := calls[|old(calls)|..];
        && old(calls) <= calls
        && (CutShort(lapped, |old(calls)|, outcome, made, ret) ==>
              (FirstFailure(old(calls), calls, outcome) <==> NestedKnown(old(calls), calls, outcome)))
        && (patience != 0 || ret != DONE ==> CutShort(lapped, |old(calls)|, outcome, made, ret))
    {
      hide Segment, Nodes, Did, Expand, Iterated, Program, Times, Rounds, FirstFailure, NestedKnown, CutShort;
      var flowop := head;
      ret, k := OK, 0;
      Links(head, ts, null, 0);
      NodesAllocated(ts);
      DidNoRounds(calls, Program(ts), outcome, patience == 0);
      while ret == OK
        invariant old(laps) <= laps && Segment(head, ts, null) && fAbort == Verdict(ret, mode, old(fAbort))
        invariant flowop == At(ts, k) && if ts == [] then k == 0 else k < |ts|
        invariant Going(old(calls), Program(ts), laps - old(laps), k, ret)
        decreases ret == OK, patience
      {
        ghost var quit := patience == 0;
        var abort := Aborted();
        if abort {
          break;
        }
        DidAnyway(old(calls), calls, Rounds(Program(ts), laps - old(laps), k), outcome, quit, patience == 0);
        if flowop == null {
          return;
        }
        ret, flowop, k := Turn(head, flowop, ts, k, old(calls), old(laps));
      }
      if ret != OK {
        ghost var lapped := Times(Expand(Program(ts), false), laps - old(laps) + 1);
        WhatEnded(old(calls), calls, lapped, ret, outcome, patience == 0);
      }
    }

    /** Where the worker is: `laps` and `k` flowops further than when it had called `before`. */
    ghost predicate Going(before: seq<Call>, ops: seq<Op>, laps: nat, k: nat, ret: int)
      requires k <= |ops|
      reads this
    {
      if ret == OK then Since(before, Rounds(ops, laps, k), false, OK)
      else Since(before, Times(Expand(ops, false), laps + 1), false, ret)
    }

    /** One flowop of the worker loop, and on to the next. */
    method Turn(head: Flowop?, flowop: Flowop, ghost ts: seq<Fop>, ghost k: nat, ghost before: seq<Call>,
                ghost base: nat)
      returns (ret: int, next: Flowop?, ghost k': nat)
      requires Segment(head, ts, null) && k < |ts| && flowop == ts[k].node
      requires base <= laps && Going(before, Program(ts), laps - base, k, OK)
      modifies this
      ensures base <= laps && patience <= old(patience) && fAbort == Verdict(ret, mode, old(fAbort))
      ensures k' < |ts| && next == ts[k'].node && Going(before, Program(ts), laps - base, k', ret)
    {
      Links(head, ts, null, k);
      NodesAllocated(ts);
      hide Segment, Nodes, Did, Expand, Iterated, Program, Times, Rounds;
      ghost var mid, quit := calls, patience == 0;
      ret := Repeat(flowop, false, ts[k]);
      fAbort := Verdict(ret, mode, fAbort);
      DidRound(before, mid, calls, ts, laps - base, k, ret, outcome, quit, patience == 0);
      next, k' := flowop.execNext, k + 1;
      if next == null {
        next, k' := head, 0;
        laps := laps + 1;
      }
    }
  }

  /** `laps` times round the list, then its first `k` flowops. */
  function Rounds(ops: seq<Op>, laps: nat, k: nat): seq<Call>
    requires k <= |ops|
  {
    Times(Expand(ops, false), laps) + Expand(ops[..k], false)
  }

  lemma {:induction false} RoundsGrow(ts: seq<Fop>, laps: nat, k: nat)
    requires k < |ts|
    ensures Rounds(Program(ts), laps, k) + Iterated(Erase(ts[k]), false) == Rounds(Program(ts), laps, k + 1)
    ensures k + 1 == |ts| ==> Rounds(Program(ts), laps, k + 1) == Rounds(Program(ts), laps + 1, 0)
    ensures Rounds(Program(ts), laps, k + 1) <= Rounds(Program(ts), laps + 1, 0)
  {
    var ops := Program(ts);
    ProgramAt(ts, k);
    assert ops[..k + 1][..k] == ops[..k];
    assert k + 1 == |ts| ==> ops[..k + 1] == ops;
    ExpandPrefix(ops, k + 1, false);
  }

  /** One flowop of the worker's list, and where that leaves it. */
  lemma {:induction false} DidRound(before: seq<Call>, mid: seq<Call>, now: seq<Call>, ts: seq<Fop>, laps: nat, k: nat,
                                    ret: int, outcome: nat -> int, aborted: bool, aborted': bool)
    requires k < |ts| && Did(before, mid, Rounds(Program(ts), laps, k), false, OK, outcome, aborted)
    requires Did(mid, now, Iterated(Erase(ts[k]), false), false, ret, outcome, aborted')
    ensures var laps', k' := if k + 1 == |ts| then laps + 1 else laps, if k + 1 == |ts| then 0 else k + 1;
      && (ret == OK ==> Did(before, now, Rounds(Program(ts), laps', k'), false, OK, outcome, aborted'))
      && (ret != OK ==> Did(before, now, Times(Expand(Program(ts), false), laps' + 1), false, ret, outcome, aborted'))
  {
    var laps' := if k + 1 == |ts| then laps + 1 else laps;
    var E := Expand(Program(ts), false);
    hide Did, Iterated;
    RoundsGrow(ts, laps, k);
    DidThen(before, mid, now, Rounds(Program(ts), laps, k), Iterated(Erase(ts[k]), false),
            false, ret, outcome, aborted, aborted');
    if ret != OK {
      assert Rounds(Program(ts), laps + 1, 0) == Times(E, laps + 1);
      TimesPrefix(E, laps + 1, laps' + 1);
      DidEnd(before, now, Rounds(Program(ts), laps, k + 1), Times(E, laps' + 1), false, ret, outcome, aborted');
    }
  }

  /** What the end of a run sets shm_f_abort to. */
  function Verdict(ret: int, mode: int, was: int): int {
    if ret == OK then was
    else if ret == DONE then ABORT_DONE
    else if ret == NORSC && mode == MODE_Q1STDONE then ABORT_RSRC
    else if ret == NORSC && mode == MODE_QALLDONE then was
    else ABORT_ERROR
  }

  lemma {:induction false} DidNothing(now: seq<Call>, ops: seq<Op>, nested: bool, outcome: nat -> int, aborted: bool)
    ensures Did(now, now, Expand(ops[..0], nested), nested, OK, outcome, aborted)
  {
  }

  lemma {:induction false} DidNoRounds(now: seq<Call>, ops: seq<Op>, outcome: nat -> int, aborted: bool)
    ensures Did(now, now, Rounds(ops, 0, 0), false, OK, outcome, aborted)
  {
  }

  /** An abort from outside does not matter to what went through. */
  lemma {:induction false} DidAnyway(before: seq<Call>, now: seq<Call>, todo: seq<Call>, outcome: nat -> int,
                                     aborted: bool, aborted': bool)
    requires Did(before, now, todo, false, OK, outcome, aborted)
    ensures Did(before, now, todo, false, OK, outcome, aborted')
  {
  }

  /** An abort from outside found before flowop `k` of a composite. */
  lemma {:induction false} DidAbort(before: seq<Call>, now: seq<Call>, ops: seq<Op>, k: nat, outcome: nat -> int)
    requires k <= |ops| && Did(before, now, Expand(ops[..k], true), true, OK, outcome, true)
    ensures Did(before, now, Expand(ops, true), true, DONE, outcome, true)
  {
    ExpandPrefix(ops, k, true);
  }

  /** Flowop `k` of a list follows those before it; the rest follows unless the run ended. */
  lemma {:induction false} DidOneMore(before: seq<Call>, mid: seq<Call>, now: seq<Call>, ts: seq<Fop>, k: nat,
                                      nested: bool,
                                      ret: int, outcome: nat -> int, aborted: bool, aborted': bool)
    requires k < |ts| && Did(before, mid, Expand(Program(ts)[..k], nested), nested, OK, outcome, aborted)
    requires Did(mid, now, Iterated(Erase(ts[k]), nested), nested, ret, outcome, aborted')
    ensures Did(before, now, Expand(Program(ts)[..k + 1], nested), nested, ret, outcome, aborted')
    ensures Stops(nested, ret) ==> Did(before, now, Expand(Program(ts), nested), nested, ret, outcome, aborted')
  {
    var ops := Program(ts);
    ProgramAt(ts, k);
    assert ops[..k + 1][..k] == ops[..k];
    DidThen(before, mid, now, Expand(ops[..k], nested), Iterated(ops[k], nested),
            nested, ret, outcome, aborted, aborted');
    if Stops(nested, ret) {
      ExpandPrefix(ops, k + 1, nested);
      DidEnd(before, now, Expand(ops[..k + 1], nested), Expand(ops, nested), nested, ret, outcome, aborted');
    }
  }

  lemma {:induction false} ProgramAt(ts: seq<Fop>, k: nat)
    requires k < |ts|
    ensures Program(ts)[k] == Erase(ts[k])
  {
    if k < |ts| - 1 {
      ProgramAt(ts[..|ts| - 1], k);
    }
  }

  ghost predicate Holds(fo: Flowop, t: Fop)
    reads fo, Nodes(t.inner)
  {
    fo == t.node && Matches(t) && Segment(fo.compFops, t.inner, null)
  }

  function Erase(t: Fop): Op {
    Op(t.attrs, Program(t.inner))
  }

  predicate Known(code: int) {
    code == OK || code == DONE || code == ERROR || code == NORSC
  }

  /** If calls from inside composites return known codes only, the run is cut exactly after the first
      outcome that is not OK. */
  lemma {:induction false} CutAtFirstFailure(calls: seq<Call>, at: nat, outcome: nat -> int, made: seq<Call>, ret: int)
    requires forall j | 0 <= j < |calls| :: calls[j].nested ==> Known(outcome(at + j))
    ensures CutShort(calls, at, outcome, made, ret) <==>
      && 0 < |made| && made <= calls && ret != OK && ret == outcome(at + |made| - 1)
      && forall i | at <= i < at + |made| - 1 :: outcome(i) == OK
  {
    if 0 < |made| && made <= calls {
      var n := |made| - 1;
      assert made[n] == calls[n] && (calls[n].nested ==> Known(outcome(at + n)));
      assert forall j | 0 <= j < n :: made[..n][j] == calls[j];
      if Quiet(made[..n], at, outcome) {
        forall i | at <= i < at + n ensures outcome(i) == OK {
          assert !Stops(made[..n][i - at].nested, outcome(at + (i - at)));
        }
      }
    }
  }

  /** Every outcome before the last call was OK. */
  ghost predicate FirstFailure(before: seq<Call>, now: seq<Call>, outcome: nat -> int) {
    forall i | |before| <= i < |now| - 1 :: outcome(i) == OK
  }

  /** No call from inside a composite, before the last call, returned an unknown code. */
  ghost predicate NestedKnown(before: seq<Call>, now: seq<Call>, outcome: nat -> int) {
    forall i | |before| <= i < |now| - 1 && now[i].nested :: Known(outcome(i))
  }

  /** A run that an outcome ended was ended by the first outcome that was not OK if and only if no
      composite was given a code it does not know: those it passes over. */
  lemma {:induction false} EndsAtFirstFailure(before: seq<Call>, now: seq<Call>, todo: seq<Call>, ret: int,
                                              outcome: nat -> int)
    requires before <= now && CutShort(todo, |before|, outcome, now[|before|..], ret)
    ensures FirstFailure(before, now, outcome) <==> NestedKnown(before, now, outcome)
  {
    var made := now[|before|..];
    var n := |made| - 1;
    assert Quiet(made[..n], |before|, outcome);
    if NestedKnown(before, now, outcome) {
      forall i | |before| <= i < |now| - 1 ensures outcome(i) == OK {
        var j := i - |before|;
        assert made[..n][j] == now[i];
        assert !Stops(made[..n][j].nested, outcome(|before| + j));
      }
    }
  }

  /** A run that ended was cut short by an outcome, unless an abort was found and DONE returned. */
  lemma {:induction false} WhatEnded(before: seq<Call>, now: seq<Call>, todo: seq<Call>, ret: int,
                                     outcome: nat -> int, aborted: bool)
    requires Did(before, now, todo, false, ret, outcome, aborted) && ret != OK
    ensures before <= now
    ensures !aborted || ret != DONE ==> CutShort(todo, |before|, outcome, now[|before|..], ret)
    ensures CutShort(todo, |before|, outcome, now[|before|..], ret) ==>
      (FirstFailure(before, now, outcome) <==> NestedKnown(before, now, outcome))
  {
    if CutShort(todo, |before|, outcome, now[|before|..], ret) {
      EndsAtFirstFailure(before, now, todo, ret, outcome);
    }
  }

  /** A composite of `func` twice, called once. */
  function TwiceInside(func: int): seq<Op> {
    var inner := Op(Attrs("inner", false, 1, func), []);
    [Op(Attrs("outer", true, 1, 0), [inner, inner])]
  }

  lemma {:induction false} CalledOnce(op: Op, nested: bool)
    requires op.attrs.iters == 1
    ensures Expand([op], nested) == Expansion(op, nested)
  {
    var once := Expansion(op, nested);
    assert Times(once, 1) == Times(once, 0) + once;
    assert [op][..0] == [];
  }

  /** A primitive flowop is called as often as its iters say, each time in the same way. */
  lemma {:induction false} PrimitiveCalls(op: Op, nested: bool)
    requires !op.attrs.composite
    ensures |Expand([op], nested)| == if op.attrs.iters < 0 then 0 else op.attrs.iters
    ensures forall c | c in Expand([op], nested) :: c == Call(op.attrs.func, nested)
  {
    var once := Expansion(op, nested);
    assert [op][..0] == [] && Expand([op], nested) == Times(once, op.attrs.iters);
    SameCalls(once[0], op.attrs.iters);
  }

  lemma {:induction false} SameCalls(c: Call, n: int)
    ensures |Times([c], n)| == if n < 0 then 0 else n
    ensures forall d | d in Times([c], n) :: d == c
    decreases if n < 0 then 0 else n
  {
    if 0 < n {
      SameCalls(c, n - 1);
    }
  }

  /** The first of two inner calls returns an unknown code, the second ERROR: the run ends after the
      second, with ERROR. */
  lemma {:induction false} PassedOver(func: int, outcome: nat -> int)
    requires !Known(outcome(0)) && outcome(1) == ERROR
    ensures var all := Expand(TwiceInside(func), false);
      |all| == 2 && Did([], all, all, false, ERROR, outcome, false) && !FirstFailure([], all, outcome)
  {
    var ops := TwiceInside(func);
    var c, inner := Call(func, true), ops[0].inner;
    CalledOnce(inner[0], true);
    ExpandJoin([inner[0]], [inner[0]], true);
    assert [inner[0]] + [inner[0]] == inner;
    CalledOnce(ops[0], false);
    assert [c] + [c] == [c, c];
    var all := [c, c];
    assert all[0..] == all && all[..1] == [c];
    assert CutShort(all, 0, outcome, all, ERROR);
    assert outcome(0) != OK;
  }

  /** Which flowops are called, in order. */
  function Funcs(calls: seq<Call>): seq<int> {
    seq(|calls|, i requires 0 <= i < |calls| => calls[i].func)
  }

  lemma {:induction false} ExpandJoin(a: seq<Op>, b: seq<Op>, nested: bool)
    ensures Expand(a + b, nested) == Expand(a, nested) + Expand(b, nested)
    decreases |b|
  {
    if b == [] {
      assert a + b == a;
    } else {
      hide Iterated;
      var n := |b| - 1;
      assert (a + b)[..|a + b| - 1] == a + b[..n] && (a + b)[|a + b| - 1] == b[n];
      ExpandJoin(a, b[..n], nested);
      var x, y, z := Expand(a, nested), Expand(b[..n], nested), Iterated(b[n], nested);
      assert Expand(a + b, nested) == (x + y) + z && Expand(b, nested) == y + z;
      Associative(x, y, z);
    }
  }

  lemma {:induction false} FuncsTimes(x: seq<Call>, y: seq<Call>, n: int)
    requires Funcs(x) == Funcs(y)
    ensures Funcs(Times(x, n)) == Funcs(Times(y, n))
    decreases if n < 0 then 0 else n
  {
    if 0 < n {
      FuncsTimes(x, y, n - 1);
      FuncsJoin(Times(x, n - 1), x);
      FuncsJoin(Times(y, n - 1), y);
    }
  }

  lemma {:induction false} FuncsJoin(x: seq<Call>, y: seq<Call>)
    ensures Funcs(x + y) == Funcs(x) + Funcs(y)
  {
  }

  lemma {:induction false} SameFuncs(ops: seq<Op>, nested: bool, nested': bool)
    ensures Funcs(Expand(ops, nested)) == Funcs(Expand(ops, nested'))
  {
    if ops != [] {
      var n := |ops| - 1;
      SameFuncs(ops[..n], nested, nested');
      FuncsTimes(Expansion(ops[n], nested), Expansion(ops[n], nested'), ops[n].attrs.iters);
      FuncsJoin(Expand(ops[..n], nested), Iterated(ops[n], nested));
      FuncsJoin(Expand(ops[..n], nested'), Iterated(ops[n], nested'));
    }
  }

  function Copies(ops: seq<Op>, n: int): seq<Op>
    decreases if n < 0 then 0 else n
  {
    if n <= 0 then [] else Copies(ops, n - 1) + ops
  }

  lemma {:induction false} ExpandCopies(ops: seq<Op>, n: int, nested: bool)
    ensures Expand(Copies(ops, n), nested) == Times(Expand(ops, nested), n)
    decreases if n < 0 then 0 else n
  {
    if 0 < n {
      ExpandCopies(ops, n - 1, nested);
      ExpandJoin(Copies(ops, n - 1), ops, nested);
    }
  }

  /** A composite is an in-line subroutine: writing its inner list out, iters times, in its place
      leaves the calls of the whole list unchanged. */
  lemma {:induction false} InLine(a: seq<Op>, op: Op, b: seq<Op>, nested: bool)
    requires op.attrs.composite
    ensures Funcs(Expand(a + [op] + b, nested)) == Funcs(Expand(a + Copies(op.inner, op.attrs.iters) + b, nested))
  {
    var body := Copies(op.inner, op.attrs.iters);
    ExpandSplit(a, [op], b, nested);
    ExpandSplit(a, body, b, nested);
    ExpandCopies(op.inner, op.attrs.iters, true);
    assert Expand([op], nested) == Expand([op][..0], nested) + Iterated(op, nested);
    assert Expand([op], nested) == Expand(body, true);
    SameFuncs(body, true, nested);
  }

  lemma {:induction false} ExpandSplit(a: seq<Op>, x: seq<Op>, b: seq<Op>, nested: bool)
    ensures Funcs(Expand(a + x + b, nested))
      == Funcs(Expand(a, nested)) + Funcs(Expand(x, nested)) + Funcs(Expand(b, nested))
  {
    ExpandJoin(a + x, b, nested);
    ExpandJoin(a, x, nested);
    FuncsJoin(Expand(a + x, nested), Expand(b, nested));
    FuncsJoin(Expand(a, nested), Expand(x, nested));
  }
}
