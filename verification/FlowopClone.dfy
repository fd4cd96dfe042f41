/** Making a thread's run-time flowops: an in-place deep copy of its master list. */
module FlowopClone {
  import opened Sequences
  import opened FlowopLists
  import opened IpcSlots

  ghost function NodeAt(s: seq<Flowop>, i: nat): Flowop? {
    if i < |s| then s[i] else null
  }

  /** The part of shared memory that defining a flowop uses: the head of the global list and the
      slots for flowops.  All definitions happen under shm_flowop_lock, so that every allocation
      starts from the slot handed out last; `free` is how many will succeed. */
  class Shared {
    const slots: Slots
    var flowoplist: Flowop?
    ghost var free: nat
    ghost var all: seq<Flowop>

    ghost predicate Valid()
      reads this, slots, slots.bitmap, (set x | x in all)`next
    {
      slots.Valid() && free == Grants(slots.bitmap[..], slots.last) && Chained()
    }

    ghost predicate Chained()
      reads this, (set x | x in all)`next
    {
      && flowoplist == NodeAt(all, 0)
      && (forall i | 0 <= i < |all| :: all[i].next == NodeAt(all, i + 1))
      && Once(all)
    }

    constructor (slots: Slots)
      requires slots.Valid()
      ensures Valid() && all == [] && this.slots == slots
    {
      this.slots := slots;
      flowoplist, free, all := null, Grants(slots.bitmap[..], slots.last), [];
    }
  }

  /** What can be copied with `slots` free slots.  A composite takes its own slot first, then its
      inner flowops theirs; a list ends where a slot is missing. */
  function Cut(ops: seq<Op>, slots: nat): (r: seq<Op>) {
    if ops == [] then []
    else
      var n := |ops| - 1;
      var rest, left := Cut(ops[..n], slots), Left(ops[..n], slots);
      if left == 0 then rest else rest + [Op(ops[n].attrs, Cut(ops[n].inner, left - 1))]
  }

  /** The free slots that remain. */
  function Left(ops: seq<Op>, slots: nat): nat {
    if Size(ops) <= slots then slots - Size(ops) else 0
  }

  lemma {:induction false} SameEnd(ops: seq<Op>, op: Op)
    requires ops != [] && op == ops[|ops| - 1]
    ensures ops[..|ops| - 1] + [op] == ops
  {
  }

  lemma {:induction false} CutWhole(ops: seq<Op>, slots: nat)
    requires Size(ops) <= slots
    ensures Cut(ops, slots) == ops
  {
    if ops != [] {
      var n := |ops| - 1;
      var left := Left(ops[..n], slots);
      CutWhole(ops[..n], slots);
      CutWhole(ops[n].inner, left - 1);
      SameEnd(ops, Op(ops[n].attrs, Cut(ops[n].inner, left - 1)));
    }
  }

  lemma {:induction false} CutSize(ops: seq<Op>, slots: nat)
    ensures |Cut(ops, slots)| <= |ops|
    ensures Size(Cut(ops, slots)) == if Size(ops) <= slots then Size(ops) else slots
  {
    if ops != [] {
      var n := |ops| - 1;
      var rest, left := Cut(ops[..n], slots), Left(ops[..n], slots);
      CutSize(ops[..n], slots);
      if left != 0 {
        CutSize(ops[n].inner, left - 1);
        assert Cut(ops, slots)[..|rest|] == rest;
      }
    }
  }

  lemma {:induction false} SizePrefix(ops: seq<Op>, k: nat)
    requires k <= |ops|
    ensures Size(ops[..k]) <= Size(ops)
  {
    if k < |ops| {
      SizePrefix(ops[..|ops| - 1], k);
      assert ops[..|ops| - 1][..k] == ops[..k];
    } else {
      assert ops[..k] == ops;
    }
  }

  /** Once the slots are used up, the rest of the list adds nothing. */
  lemma {:induction false} CutEnds(ops: seq<Op>, k: nat, slots: nat)
    requires k <= |ops| && Left(ops[..k], slots) == 0
    ensures Cut(ops, slots) == Cut(ops[..k], slots) && Left(ops, slots) == 0
  {
    SizePrefix(ops, k);
    if k < |ops| {
      CutEnds(ops[..|ops| - 1], k, slots) by { assert ops[..|ops| - 1][..k] == ops[..k]; }
      assert ops[..|ops| - 1][..k] == ops[..k];
    } else {
      assert ops[..k] == ops;
    }
  }

  /** The whole top level is copied exactly if a slot is left for its last flowop. */
  lemma {:induction false} TopLevel(ops: seq<Op>, slots: nat)
    ensures |Cut(ops, slots)| == |ops| <==> ops == [] || Size(ops[..|ops| - 1]) < slots
  {
    if ops != [] {
      var n := |ops| - 1;
      CutSize(ops[..n], slots);
      if 0 < Left(ops[..n], slots) {
        CutWhole(ops[..n], slots);
      }
    }
  }

  /** Walks to the last flowop of a list, which is not empty. */
  method FindEnd(head: Flowop, ghost ts: seq<Fop>) returns (end: Flowop)
    requires Segment(head, ts, null) && ts != []
    ensures end == ts[|ts| - 1].node
  {
    Links(head, ts, null, 0);
    end := head;
    ghost var k := 0;
    while end.execNext != null
      invariant 0 <= k < |ts| && end == ts[k].node && Segment(head, ts, null)
      decreases |ts| - k
    {
      Links(head, ts, null, k);
      end := end.execNext;
      k := k + 1;
    }
    Links(head, ts, null, k);
  }

  /** Takes a slot for a copy of `m` and puts it at the head of the global list. */
  method Allocate(shm: Shared, owner: int, m: Flowop) returns (n: Flowop?)
    requires shm.Valid()
    modifies shm, shm.slots, shm.slots.bitmap
    ensures shm.Valid() && (n == null <==> old(shm.free) == 0)
    ensures n == null ==> shm.free == 0 && shm.all == old(shm.all)
    ensures n != null ==>
      && fresh(n) && shm.all == [n] + old(shm.all) && shm.free == old(shm.free) - 1
      && n.attrs == m.attrs && n.compFops == m.compFops && n.owner == owner && n.instance == 1
      && n.execNext == null
  {
    hide Once, Grants, Scanned;
    var slot := shm.slots.Malloc(shm.slots.last);
    if slot.None? {
      return null;
    }
    shm.free := shm.free - 1;
    n := Register(shm, owner, m);
  }

  /** The global part of flowop_define_common. */
  method Register(shm: Shared, owner: int, m: Flowop) returns (n: Flowop)
    requires shm.Chained()
    modifies shm`flowoplist, shm`all
    ensures shm.Chained() && fresh(n) && shm.all == [n] + old(shm.all)
    ensures n.attrs == m.attrs && n.compFops == m.compFops && n.owner == owner && n.instance == 1
    ensures n.execNext == null
  {
    hide Once;
    ghost var before := shm.all;
    n := new Flowop(m, owner, 1);
    assert n !in before;
    n.next := shm.flowoplist;
    shm.flowoplist := n;
    shm.all := [n] + before;
    forall i | 0 <= i < |shm.all| ensures shm.all[i].next == NodeAt(shm.all, i + 1) {
      if 0 < i {
        assert shm.all[i] == before[i - 1] && old(before[i - 1].next) == NodeAt(before, i);
      }
    }
    OnceJoined([], n, before);
    assert [] + [n] + before == shm.all;
  }

  /** Puts `n` at the end of a list. */
  method Append(n: Flowop, head: Flowop?, ghost ts: seq<Fop>) returns (head': Flowop)
    requires Segment(head, ts, null) && Unshared(ts) && n !in Nodes(ts)
    modifies Nodes(ts)`execNext
    ensures Segment(head', ts, n)
  {
    Links(head, ts, null, 0);
    NodesAllocated(ts);
    assert ts != [] ==> ts[|ts| - 1].node !in Nodes(ts[..|ts| - 1]) + Nodes(ts[|ts| - 1].inner);
    if head == null {
      head' := n;
    } else {
      var end := FindEnd(head, ts);
      hide Unshared;
      ghost var l := ts[|ts| - 1];
      assert Segment(head, ts[..|ts| - 1], l.node) && Segment(l.node.compFops, l.inner, null);
      end.execNext := n;
      assert Segment(head, ts[..|ts| - 1], l.node) && Segment(l.node.compFops, l.inner, null);
      head' := head;
    }
  }

  /** flowop_define_common: a copy of `m` goes to the head of the global list and to the end of the
      given one.  Returns null exactly if ipc_malloc does, and then changes nothing. */
  method DefineCommon(shm: Shared, owner: int, m: Flowop, head: Flowop?, ghost ts: seq<Fop>)
    returns (n: Flowop?, head': Flowop?)
    requires shm.Valid() && Segment(head, ts, null) && Unshared(ts)
    modifies shm, shm.slots, shm.slots.bitmap, Nodes(ts)`execNext
    ensures shm.Valid() && (n == null <==> old(shm.free) == 0)
    ensures n == null ==> shm.free == 0 && shm.all == old(shm.all) && head' == head && Segment(head, ts, null)
    ensures n != null ==>
      && fresh(n) && shm.all == [n] + old(shm.all) && shm.free == old(shm.free) - 1
      && n.attrs == m.attrs && n.compFops == m.compFops && n.owner == owner && n.instance == 1
      && n.execNext == null && Segment(head', ts, n)
  {
    NodesAllocated(ts);
    n := Allocate(shm, owner, m);
    if n == null {
      return null, head;
    }
    head' := Append(n, head, ts);
  }

  /** `ts` is what `slots` free slots allow of a copy of `ms`, with no node used twice. */
  ghost predicate Copy(ms: seq<Fop>, ts: seq<Fop>, slots: nat, owner: int) {
    Unshared(ts) && Stamped(ts, owner) && Program(ts) == Cut(Program(ms), slots)
  }

  /** flowop_initflow on a new flowop: a composite gets inner flowops of its own in place of those it
      was copied with, flowop_composite_init. */
  method InitFlow(shm: Shared, n: Flowop, ghost m: Fop) returns (ghost inner: seq<Fop>)
    requires shm.Valid() && n.attrs == m.attrs && Segment(n.compFops, m.inner, null)
    requires (!m.attrs.composite ==> m.inner == []) && n !in Nodes(m.inner)
    modifies shm, shm.slots, shm.slots.bitmap, n`compFops
    ensures shm.Valid() && fresh(Nodes(inner)) && Segment(n.compFops, inner, null)
    ensures !m.attrs.composite ==> inner == []
    ensures Copy(m.inner, inner, old(shm.free), n.owner)
    ensures shm.free == Left(Program(m.inner), old(shm.free)) && shm.all == Latest(inner) + old(shm.all)
    decreases m, 0
  {
    inner := [];
    if n.attrs.composite {
      var head, ok;
      head, ok, inner := CreateRuntime(shm, n.owner, n.compFops, m.inner);
      NodesAllocated(inner);
      n.compFops := head;
    }
  }

  /** One round of flowop_create_runtime_flowops: a copy of one master, with all its inner flowops,
      at the end of the list. */
  method CopyOne(shm: Shared, owner: int, flowop: Flowop, ghost m: Fop, head: Flowop?, ghost ts: seq<Fop>)
    returns (ok: bool, head': Flowop?, ghost l: Fop)
    requires shm.Valid() && Segment(head, ts, null) && Unshared(ts)
    requires flowop == m.node && Matches(m) && Segment(m.node.compFops, m.inner, null)
    requires (!m.attrs.composite ==> m.inner == []) && forall x | x in Nodes(m.inner) :: x !in Nodes(ts)
    modifies shm, shm.slots, shm.slots.bitmap, Nodes(ts)`execNext
    ensures shm.Valid() && (ok <==> 0 < old(shm.free))
    ensures !ok ==> Segment(head', ts, null) && shm.free == 0 && shm.all == old(shm.all)
    ensures ok ==>
      && Segment(head', ts + [l], null) && fresh(l.node) && fresh(Nodes(l.inner)) && l.node !in Nodes(l.inner)
      && l.attrs == m.attrs && l.owner == owner && l.instance == 1
      && Copy(m.inner, l.inner, old(shm.free) - 1, owner)
      && shm.free == Left(Program(m.inner), old(shm.free) - 1)
      && shm.all == Latest(l.inner) + [l.node] + old(shm.all)
    decreases m, 1
  {
    NodesAllocated(ts);
    NodesAllocated(m.inner);
    hide Segment, Nodes, Unshared, Stamped, Program, Cut, Left, Latest, Copy, Shared.Valid;
    var n;
    n, head' := DefineCommon(shm, owner, flowop, head, ts);
    if n == null {
      return false, head, m;
    }
    assert n !in Nodes(m.inner) && n !in Nodes(ts);
    ghost var inner := InitFlow(shm, n, m);
    ok, l := true, Fop(n, m.attrs, owner, 1, inner);
    SegmentGrows(head', ts, l, null);
    Associative(Latest(inner), [n], old(shm.all));
  }

  /** The caller's pointer holds the master list only in the first round, and is then cleared. */
  method ClearedHead(flowop: Flowop, head: Flowop?, ghost list: Flowop?, ghost ms: seq<Fop>, ghost k: nat,
                     ghost ts: seq<Fop>)
    returns (head': Flowop?)
    requires Segment(list, ms, null) && k == |ts| < |ms| && flowop == ms[k].node
    requires forall x | x in Nodes(ms) :: x !in Nodes(ts)
    requires if k == 0 then head == list else Segment(head, ts, null)
    ensures Segment(head', ts, null)
  {
    Links(list, ms, null, 0);
    NodeIn(ms, k);
    if 0 < k {
      Links(head, ts, null, 0);
      NodeIn(ts, 0);
    }
    head' := if flowop == head then null else head;
  }

  /** The same, seen from the list being copied. */
  method CopyNext(shm: Shared, owner: int, flowop: Flowop, head: Flowop?, ghost list: Flowop?, ghost ms: seq<Fop>,
                  ghost k: nat, ghost ts: seq<Fop>, ghost slots: nat, ghost all: seq<Flowop>)
    returns (ok: bool, next: Flowop?, head': Flowop?, ghost l: Fop)
    requires shm.Valid() && Segment(list, ms, null) && forall x | x in Nodes(ms) :: x !in Nodes(ts)
    requires if k == 0 then head == list else Segment(head, ts, null)
    requires Partway(ms, k, ts, slots, owner, shm.free, shm.all, all) && k < |ms| && flowop == ms[k].node
    modifies shm, shm.slots, shm.slots.bitmap, Nodes(ts)`execNext
    ensures shm.Valid() && Segment(list, ms, null)
    ensures ok ==>
      && next == At(ms, k + 1)
      && Segment(head', ts + [l], null) && Partway(ms, k + 1, ts + [l], slots, owner, shm.free, shm.all, all)
      && forall x | x in Nodes(ts + [l]) :: x in Nodes(ts) || fresh(x)
    ensures !ok ==>
      && Segment(head', ts, null) && Copy(ms, ts, slots, owner)
      && shm.free == Left(Program(ms), slots) && shm.all == Latest(ts) + all
    decreases ms, 0
  {
    hide Segment, Nodes, Unshared, Stamped, Program, Cut, Left, Latest, Copy, Shared.Valid, Matches, Partway;
    NodesAllocated(ts);
    NodesAllocated(ms);
    Links(list, ms, null, k);
    NodeIn(ms, k);
    PartwayShares(ms, k, ts, slots, owner, shm.free, shm.all, all);
    ghost var free, before := shm.free, shm.all;
    head' := ClearedHead(flowop, head, list, ms, k, ts);
    ok, head', l := CopyOne(shm, owner, flowop, ms[k], head', ts);
    next := flowop.execNext;
    if ok {
      PartwayGrows(ms, k, ts, l, slots, owner, free, before, all);
    } else {
      PartwayEnds(ms, k, ts, slots, owner, before, all);
    }
  }

  /** flowop_create_runtime_flowops.  Masters are left as they are, all new nodes are new, and the
      global list gets exactly them.  It reports success exactly if the top level was copied, which
      does not mean that all inner lists were. */
  method CreateRuntime(shm: Shared, owner: int, list: Flowop?, ghost ms: seq<Fop>)
    returns (head: Flowop?, ok: bool, ghost ts: seq<Fop>)
    requires shm.Valid() && Segment(list, ms, null)
    modifies shm, shm.slots, shm.slots.bitmap
    ensures shm.Valid() && Segment(list, ms, null)
    ensures Segment(head, ts, null) && fresh(Nodes(ts)) && Copy(ms, ts, old(shm.free), owner)
    ensures shm.free == Left(Program(ms), old(shm.free)) && shm.all == Latest(ts) + old(shm.all)
    ensures ok <==> |ts| == |ms|
    decreases ms, 2
  {
    hide Segment, Nodes, Unshared, Stamped, Program, Cut, Left, Latest, Copy, Shared.Valid, Matches, Partway;
    head, ok, ts := list, true, [];
    var flowop := list;
    ghost var k, slots, all := 0, shm.free, shm.all;
    NodesAllocated(ms);
    Links(list, ms, null, 0);
    PartwayStart(ms, slots, owner, all);
    while flowop != null
      invariant k == |ts| <= |ms| && flowop == At(ms, k) && forall x | x in Nodes(ts) :: fresh(x)
      invariant shm.Valid() && Segment(list, ms, null) && if k == 0 then head == list else Segment(head, ts, null)
      invariant Partway(ms, k, ts, slots, owner, shm.free, shm.all, all)
      decreases |ms| - k
    {
      ghost var l;
      var copied;
      copied, flowop, head, l := CopyNext(shm, owner, flowop, head, list, ms, k, ts, slots, all);
      if !copied {
        ok := false;
        return;
      }
      ts, k := ts + [l], k + 1;
    }
    PartwayDone(list, head, ms, ts, slots, owner, shm.free, shm.all, all);
  }

  /** The first `k` masters have been copied; `free` slots are left and the global list is `now`. */
  ghost predicate Partway(ms: seq<Fop>, k: nat, ts: seq<Fop>, slots: nat, owner: int, free: nat,
                          now: seq<Flowop>, all: seq<Flowop>)
  {
    && k == |ts| <= |ms| && Copy(ms[..k], ts, slots, owner)
    && free == Left(Program(ms[..k]), slots) && now == Latest(ts) + all
  }

  lemma {:induction false} PartwayStart(ms: seq<Fop>, slots: nat, owner: int, all: seq<Flowop>)
    ensures Partway(ms, 0, [], slots, owner, slots, all, all) && Nodes([]) == {}
  {
    assert [] + all == all;
  }

  lemma {:induction false} PartwayShares(ms: seq<Fop>, k: nat, ts: seq<Fop>, slots: nat, owner: int, free: nat,
                      now: seq<Flowop>, all: seq<Flowop>)
    requires Partway(ms, k, ts, slots, owner, free, now, all)
    ensures Unshared(ts) && k == |ts|
  {
  }

  lemma {:induction false} PartwayDone(list: Flowop?, head: Flowop?, ms: seq<Fop>, ts: seq<Fop>, slots: nat,
                    owner: int, free: nat,
                    now: seq<Flowop>, all: seq<Flowop>)
    requires Partway(ms, |ms|, ts, slots, owner, free, now, all)
    requires Segment(list, ms, null) && if ms == [] then head == list else Segment(head, ts, null)
    ensures Segment(head, ts, null)
    ensures Copy(ms, ts, slots, owner) && free == Left(Program(ms), slots) && now == Latest(ts) + all
  {
    assert ms[..|ms|] == ms;
    if ms == [] {
      assert ts == [];
    }
  }

  /** Without a free slot, what has been copied is all there will be. */
  lemma {:induction false} PartwayEnds(ms: seq<Fop>, k: nat, ts: seq<Fop>, slots: nat, owner: int,
                                       now: seq<Flowop>, all: seq<Flowop>)
    requires Partway(ms, k, ts, slots, owner, 0, now, all)
    ensures Copy(ms, ts, slots, owner) && Left(Program(ms), slots) == 0 && now == Latest(ts) + all
  {
    ProgramPrefix(ms, k);
    CutEnds(Program(ms), k, slots);
  }

  /** One more master copied, with its inner flowops. */
  lemma {:induction false} PartwayGrows(ms: seq<Fop>, k: nat, ts: seq<Fop>, l: Fop, slots: nat, owner: int, free: nat,
                     now: seq<Flowop>, all: seq<Flowop>)
    requires Partway(ms, k, ts, slots, owner, free, now, all) && k < |ms| && 0 < free
    requires l.attrs == ms[k].attrs && l.owner == owner && l.instance == 1
    requires Copy(ms[k].inner, l.inner, free - 1, owner)
    requires l.node !in Nodes(ts) && l.node !in Nodes(l.inner) && forall x | x in Nodes(ts) :: x !in Nodes(l.inner)
    ensures Partway(ms, k + 1, ts + [l], slots, owner, Left(Program(ms[k].inner), free - 1),
              Latest(l.inner) + [l.node] + now, all)
    ensures forall x | x in Nodes(ts + [l]) :: x in Nodes(ts) || x == l.node || x in Nodes(l.inner)
  {
    hide Unshared, Stamped, Program, Cut, Left, Nodes, Latest;
    NodesGrow(ts, l, owner);
    ProgramGrows(ms, k);
    CutGrows(Program(ms[..k]), Op(ms[k].attrs, Program(ms[k].inner)), slots);
    ProgramGrows(ts + [l], k);
    assert (ts + [l])[..k] == ts && (ts + [l])[..k + 1] == ts + [l];
    Associative(Latest(l.inner) + [l.node], Latest(ts), all);
  }

  lemma {:induction false} NodesGrow(ts: seq<Fop>, l: Fop, owner: int)
    requires Unshared(ts) && Unshared(l.inner) && Stamped(ts, owner) && Stamped(l.inner, owner)
    requires l.owner == owner && l.instance == 1
    requires l.node !in Nodes(ts) && l.node !in Nodes(l.inner) && Nodes(ts) !! Nodes(l.inner)
    ensures Unshared(ts + [l]) && Stamped(ts + [l], owner) && Nodes(ts + [l]) == Nodes(ts) + {l.node} + Nodes(l.inner)
    ensures Latest(ts + [l]) == Latest(l.inner) + [l.node] + Latest(ts)
  {
    assert (ts + [l])[..|ts|] == ts;
  }

  lemma {:induction false} ProgramGrows(ms: seq<Fop>, k: nat)
    requires k < |ms|
    ensures Program(ms[..k + 1]) == Program(ms[..k]) + [Op(ms[k].attrs, Program(ms[k].inner))]
  {
    assert ms[..k + 1][..k] == ms[..k];
  }

  lemma {:induction false} CutGrows(ops: seq<Op>, op: Op, slots: nat)
    requires 0 < Left(ops, slots)
    ensures Cut(ops + [op], slots) == Cut(ops, slots) + [Op(op.attrs, Cut(op.inner, Left(ops, slots) - 1))]
    ensures Left(ops + [op], slots) == Left(op.inner, Left(ops, slots) - 1)
  {
    assert (ops + [op])[..|ops|] == ops;
  }

  lemma {:induction false} ProgramPrefix(ms: seq<Fop>, k: nat)
    requires k <= |ms|
    ensures Program(ms)[..k] == Program(ms[..k])
  {
    if k < |ms| {
      ProgramPrefix(ms[..|ms| - 1], k);
      assert ms[..|ms| - 1][..k] == ms[..k];
      assert Program(ms)[..k] == Program(ms[..|ms| - 1])[..k];
    } else {
      assert ms[..k] == ms;
    }
  }

  /** How much was copied: everything exactly if there were as many slots as flowops; the whole top
      level, which is what success means, exactly if there was a slot for its last flowop. */
  lemma {:induction false} CopiedExactly(ms: seq<Fop>, ts: seq<Fop>, slots: nat, owner: int)
    requires Copy(ms, ts, slots, owner)
    ensures Program(ts) == Program(ms) <==> Size(Program(ms)) <= slots
    ensures |ts| == |ms| <==> ms == [] || Size(Program(ms[..|ms| - 1])) < slots
    ensures |Latest(ts)| == if Size(Program(ms)) <= slots then Size(Program(ms)) else slots
  {
    CutSize(Program(ms), slots);
    TopLevel(Program(ms), slots);
    LatestSize(ts);
    if Size(Program(ms)) <= slots {
      CutWhole(Program(ms), slots);
    }
    if ms != [] {
      ProgramPrefix(ms, |ms| - 1);
    }
  }

  /** The last flowop of the list has inner flowops. */
  ghost predicate EndsInComposite(ms: seq<Fop>) {
    ms != [] && ms[|ms| - 1].inner != []
  }

  /** So success does not mean a complete copy: a list that ends in a composite succeeds with slots
      for all but the composite's inner flowops. */
  lemma {:induction false} SuccessWithoutInner(ms: seq<Fop>, ts: seq<Fop>, owner: int)
    requires EndsInComposite(ms)
    requires Copy(ms, ts, Size(Program(ms[..|ms| - 1])) + 1, owner)
    ensures |ts| == |ms| && Program(ts) != Program(ms)
  {
    CopiedExactly(ms, ts, Size(Program(ms[..|ms| - 1])) + 1, owner);
    ProgramPrefix(ms, |ms| - 1);
  }
}
