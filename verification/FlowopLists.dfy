/** Flowops as they are linked in memory: lists through fo_exec_next, inner lists of composites
    through fo_comp_fops, and one global list through fo_next.  Lemmas about them do without automatic
    induction, whose hypothesis does not keep the two types of lists below apart. */
module FlowopLists {

  /** The attributes that a copy inherits. */
  datatype Attrs = Attrs(name: string, composite: bool, iters: int, func: int)

  class Flowop {
    var attrs: Attrs
    var owner: int          // fo_thread
    var instance: int
    var execNext: Flowop?
    var compFops: Flowop?
    var next: Flowop?       // on the global list

    /** flowop_define_common with `inherit`: everything is copied, the two list links are cleared. */
    constructor (m: Flowop, owner: int, instance: int)
      ensures attrs == m.attrs && compFops == m.compFops && execNext == null && next == null
      ensures this.owner == owner && this.instance == instance
    {
      this.attrs, this.compFops, this.execNext, this.next := m.attrs, m.compFops, null, null;
      this.owner, this.instance := owner, instance;
    }
  }

  /** A list of flowops, each with its inner list.  Inner lists may be shared in memory. */
  datatype Fop = Fop(node: Flowop, attrs: Attrs, owner: int, instance: int, inner: seq<Fop>)

  /** The node at a place in a list, or NULL after its end. */
  ghost function At(ts: seq<Fop>, k: nat): Flowop? {
    if k < |ts| then ts[k].node else null
  }

  /** The same, without saying which nodes of memory hold it. */
  datatype Op = Op(attrs: Attrs, inner: seq<Op>)

  ghost function Nodes(ts: seq<Fop>): set<Flowop> {
    if ts == [] then {}
    else Nodes(ts[..|ts| - 1]) + {ts[|ts| - 1].node} + Nodes(ts[|ts| - 1].inner)
  }

  /** The list from `p` up to, and not including, `q` is `ts`. */
  ghost predicate Segment(p: Flowop?, ts: seq<Fop>, q: Flowop?)
    reads Nodes(ts)
    decreases ts
  {
    if ts == [] then p == q
    else
      var l := ts[|ts| - 1];
      && Segment(p, ts[..|ts| - 1], l.node) && l.node.execNext == q
      && Matches(l) && Segment(l.node.compFops, l.inner, null)
      && (!l.attrs.composite ==> l.inner == [])
  }

  ghost predicate Matches(l: Fop)
    reads l.node
  {
    l.node.attrs == l.attrs && l.node.owner == l.owner && l.node.instance == l.instance
  }

  /** No node is used twice. */
  ghost predicate Unshared(ts: seq<Fop>) {
    ts == [] ||
    var l := ts[|ts| - 1];
    && Unshared(ts[..|ts| - 1]) && Unshared(l.inner)
    && l.node !in Nodes(ts[..|ts| - 1]) && l.node !in Nodes(l.inner) && Nodes(ts[..|ts| - 1]) !! Nodes(l.inner)
  }

  function Program(ts: seq<Fop>): (ops: seq<Op>)
    ensures |ops| == |ts|
  {
    if ts == [] then []
    else Program(ts[..|ts| - 1]) + [Op(ts[|ts| - 1].attrs, Program(ts[|ts| - 1].inner))]
  }

  function Size(ops: seq<Op>): nat {
    if ops == [] then 0 else Size(ops[..|ops| - 1]) + 1 + Size(ops[|ops| - 1].inner)
  }

  /** All nodes, the latest defined first: an inner list is defined after its composite. */
  ghost function Latest(ts: seq<Fop>): seq<Flowop> {
    if ts == [] then []
    else Latest(ts[|ts| - 1].inner) + [ts[|ts| - 1].node] + Latest(ts[..|ts| - 1])
  }

  ghost predicate Stamped(ts: seq<Fop>, owner: int) {
    ts == [] ||
    var l := ts[|ts| - 1];
    Stamped(ts[..|ts| - 1], owner) && l.owner == owner && l.instance == 1 && Stamped(l.inner, owner)
  }

  lemma {:induction false} NodesAllocated(ts: seq<Fop>)
    ensures forall x | x in Nodes(ts) :: allocated(x)
  {
    if ts != [] {
      NodesAllocated(ts[..|ts| - 1]);
      NodesAllocated(ts[|ts| - 1].inner);
    }
  }

  lemma {:induction false} NodeIn(ts: seq<Fop>, k: nat)
    requires k < |ts|
    ensures ts[k].node in Nodes(ts) && Nodes(ts[k].inner) <= Nodes(ts)
  {
    if k < |ts| - 1 {
      NodeIn(ts[..|ts| - 1], k);
    }
  }

  lemma {:induction false} SegmentGrows(p: Flowop?, ts: seq<Fop>, l: Fop, q: Flowop?)
    requires Segment(p, ts, l.node) && l.node.execNext == q && Matches(l)
    requires Segment(l.node.compFops, l.inner, null) && (!l.attrs.composite ==> l.inner == [])
    ensures Segment(p, ts + [l], q)
  {
    assert (ts + [l])[..|ts|] == ts;
  }

  /** The links of a list, node by node. */
  lemma {:induction false} Links(p: Flowop?, ts: seq<Fop>, q: Flowop?, k: nat)
    requires Segment(p, ts, q) && k <= |ts|
    ensures p == if |ts| == 0 then q else ts[0].node
    ensures k < |ts| ==>
      && ts[k].node.execNext == (if k + 1 < |ts| then ts[k + 1].node else q)
      && Matches(ts[k]) && Segment(ts[k].node.compFops, ts[k].inner, null)
      && (!ts[k].attrs.composite ==> ts[k].inner == [])
  {
    if ts != [] {
      var n := |ts| - 1;
      Links(p, ts[..n], ts[n].node, if k < n then k else 0);
    }
  }

  lemma {:induction false} LatestIn(ts: seq<Fop>, x: Flowop)
    ensures x in Latest(ts) <==> x in Nodes(ts)
  {
    if ts != [] {
      LatestIn(ts[..|ts| - 1], x);
      LatestIn(ts[|ts| - 1].inner, x);
    }
  }

  lemma {:induction false} LatestSize(ts: seq<Fop>)
    ensures |Latest(ts)| == Size(Program(ts))
  {
    if ts != [] {
      var n := |ts| - 1;
      LatestSize(ts[..n]);
      LatestSize(ts[n].inner);
      assert Program(ts)[..n] == Program(ts[..n]);
    }
  }

  ghost predicate Once<T>(s: seq<T>) {
    forall i, j | 0 <= i < j < |s| :: s[i] != s[j]
  }

  lemma {:induction false} OnceJoined<T>(a: seq<T>, x: T, b: seq<T>)
    requires Once(a) && Once(b) && x !in a && x !in b && forall y | y in a :: y !in b
    ensures Once(a + [x] + b)
  {
    var s := a + [x] + b;
    forall i, j | 0 <= i < j < |s| ensures s[i] != s[j] {
      assert i < |a| ==> a[i] in a;
      assert |a| < j ==> b[j - |a| - 1] in b;
    }
  }

  /** Every node is listed once. */
  lemma {:induction false} LatestOnce(ts: seq<Fop>)
    requires Unshared(ts)
    ensures Once(Latest(ts))
  {
    if ts != [] {
      var n := |ts| - 1;
      LatestOnce(ts[..n]);
      LatestOnce(ts[n].inner);
      LatestIn(ts[..n], ts[n].node);
      LatestIn(ts[n].inner, ts[n].node);
      forall y | y in Latest(ts[n].inner) ensures y !in Latest(ts[..n]) {
        LatestIn(ts[..n], y);
        LatestIn(ts[n].inner, y);
      }
      OnceJoined(Latest(ts[n].inner), ts[n].node, Latest(ts[..n]));
    }
  }
}
