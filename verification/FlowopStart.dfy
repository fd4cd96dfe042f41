/** flowop_start: a thread copies its master flowops and runs the copy. */
module FlowopStart {
  import opened FlowopLists
  import opened FlowopClone
  import opened FlowopExec

  /** With slots for all its flowops, a thread makes the calls that the master list prescribes,
      although it runs only its own copy; without a slot for each top-level flowop it makes none. */
  method Start(shm: Shared, run: Run, owner: int, list: Flowop?, ghost ms: seq<Fop>)
    returns (started: bool, ret: int, ghost k: nat)
    requires shm.Valid() && Segment(list, ms, null)
    modifies shm, shm.slots, shm.slots.bitmap, run
    ensures shm.Valid() && Segment(list, ms, null)
    ensures started <==> ms == [] || Size(Program(ms[..|ms| - 1])) < old(shm.free)
    ensures !started ==> run.calls == old(run.calls) && run.fAbort == old(run.fAbort)
    ensures started && Size(Program(ms)) <= old(shm.free) ==>
      && k <= |ms| && old(run.laps) <= run.laps
      && run.Going(old(run.calls), Program(ms), run.laps - old(run.laps), k, ret)
      && (ret == OK ==> run.patience == 0 || ms == [])
      && (ret == 0 ==> run.fAbort == old(run.fAbort)) && (ret == 1 ==> run.fAbort == 2)
      && (ret == -2 ==> run.fAbort == if run.mode == 1 then 3 else if run.mode == 2 then old(run.fAbort) else 1)
      && (ret != 0 && ret != 1 && ret != -2 ==> run.fAbort == 1)
  {
    hide Segment, Nodes, Program, Size, Copy, Latest, Run.Going, Shared.Valid;
    hide FirstFailure, NestedKnown, CutShort;
    NodesAllocated(ms);
    var head;
    ghost var ts;
    head, started, ts := CreateRuntime(shm, owner, list, ms);
    CopiedExactly(ms, ts, old(shm.free), owner);
    ret, k := OK, 0;
    if started {
      ret, k := run.Work(head, ts);
    }
  }
}
