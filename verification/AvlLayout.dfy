/** Nodes of the intrusive AVL tree, and what it means for their links to form a balanced search
    tree over a sequence of nodes.

    A layout is a value: it maps every node to its links together with the stretch of the in-order
    sequence that its subtree covers.  All reasoning about the shape of trees is done on layouts;
    the imperative code keeps one in step with the nodes. */
module AvlLayout {

  /** A child index: 0 is Left, 1 is Right. */
  datatype Side = Left | Right {
    function Opp(): Side {
      if Left? then Right else Left
    }
    /** What a taller child on this side contributes to the balance. */
    function Weight(): int {
      Lean(1)
    }
    /** What an excess height of `d` on this side contributes to the balance. */
    function Lean(d: int): int {
      if Left? then -d else d
    }
  }

  /** The two-element child array of a node. */
  datatype Kids = Kids(l: Node?, r: Node?) {
    function Get(c: Side): Node? {
      if c.Left? then l else r
    }
    function Put(c: Side, n: Node?): Kids {
      if c.Left? then Kids(n, r) else Kids(l, n)
    }
  }

  /** A fileset entry with its embedded tree links, in the unpacked layout. */
  class Node {
    var child: Kids
    var parent: Node?
    var childIndex: Side
    var balance: int
    var key: int          // fse_index
    var free: bool        // FSE_FREE
    var present: bool     // FSE_EXISTS
    var busy: bool        // FSE_BUSY
    var waiting: bool     // FSE_THRD_WAITNG
    var openCnt: int

    constructor (key: int)
      ensures this.key == key && free && !present && !busy && !waiting && openCnt == 0
    {
      child, parent, childIndex, balance := Kids(null, null), null, Left, 0;
      this.key := key;
      free, present, busy, waiting, openCnt := true, false, false, false, 0;
    }
  }

  /** The links of a node; the subtree below it covers positions lo..hi of the in-order sequence,
      with the node itself at pos, and has height ht. */
  datatype Rec = Rec(kids: Kids, up: Node?, side: Side, bal: int, lo: int, pos: int, hi: int, ht: nat) {
    function From(c: Side): int {
      if c.Left? then lo else pos + 1
    }
    function To(c: Side): int {
      if c.Left? then pos else hi
    }
  }

  type Layout = map<Node, Rec>

  /** The child slot `c` of `n` covers what lies between `n` and the end of its stretch. */
  ghost predicate Slot(L: Layout, n: Node, c: Side)
    requires n in L
  {
    var k := L[n].kids.Get(c);
    if k == null then L[n].From(c) == L[n].To(c)
    else k in L && L[k].up == n && L[k].side == c && L[k].lo == L[n].From(c) && L[k].hi == L[n].To(c)
  }

  /** `n` has its place in the sequence, and is where its parent link and child index say. */
  ghost predicate Seat(L: Layout, ord: seq<Node>, root: Node?, n: Node)
    requires n in L
  {
    && 0 <= L[n].lo <= L[n].pos < L[n].hi <= |ord| && ord[L[n].pos] == n
    && if L[n].up == null then n == root && L[n].lo == 0 && L[n].hi == |ord|
       else L[n].up in L && L[L[n].up].kids.Get(L[n].side) == n
  }

  /** The links form a tree under `root` whose in-order sequence is `ord`. */
  ghost predicate Shaped(L: Layout, ord: seq<Node>, root: Node?) {
    && (forall n {:trigger Seat(L, ord, root, n)} | n in L :: Seat(L, ord, root, n))
    && (forall n, c {:trigger Slot(L, n, c)} | n in L :: Slot(L, n, c))
    && (forall q {:trigger ord[q]} | 0 <= q < |ord| :: ord[q] in L && L[ord[q]].pos == q)
    && if root == null then ord == [] else root in L && L[root].up == null
  }

  function Max(a: int, b: int): int {
    if a < b then b else a
  }

  function Ht(L: Layout, k: Node?): nat {
    if k == null || k !in L then 0 else L[k].ht
  }

  /** The height and balance recorded at `n` are right once child `c` is counted `d` lower than it
      now is. */
  ghost predicate Lagging(L: Layout, n: Node, c: Side, d: int)
    requires n in L
  {
    var a, b := Ht(L, L[n].kids.Get(c)) - d, Ht(L, L[n].kids.Get(c.Opp()));
    L[n].ht == 1 + Max(a, b) && L[n].bal == c.Lean(a - b) && -1 <= L[n].bal <= 1
  }

  ghost predicate Balanced(L: Layout, n: Node)
    requires n in L
  {
    Lagging(L, n, Left, 0)
  }

  /** Every node but possibly `p` is balanced, and `p` lags by `d` on side `c`. */
  ghost predicate Off(L: Layout, p: Node?, c: Side, d: int) {
    && (forall n {:trigger Balanced(L, n)} | n in L && n != p :: Balanced(L, n))
    && (p in L ==> Lagging(L, p, c, d))
  }

  lemma OffZero(L: Layout, p: Node?, c: Side, d: int)
    requires Off(L, p, c, d) && (p == null || d == 0)
    ensures Off(L, null, Left, 0)
  {
  }

  /** Going up one link: the parent covers more of the sequence. */
  lemma Above(L: Layout, ord: seq<Node>, root: Node?, n: Node)
    requires Shaped(L, ord, root) && n in L
    ensures 0 < L[n].hi - L[n].lo <= |ord|
    ensures L[n].up == null ==> n == root
    ensures L[n].up != null ==>
      && L[n].up in L && L[L[n].up].kids.Get(L[n].side) == n && L[n].up != n
      && L[n].hi - L[n].lo < L[L[n].up].hi - L[L[n].up].lo <= |ord|
  {
    assert Seat(L, ord, root, n);
    if L[n].up != null {
      assert Seat(L, ord, root, L[n].up) && Slot(L, L[n].up, L[n].side);
    }
  }

  /** The node at a position that `m` covers is `m` or lies below it, and so does its parent. */
  lemma {:induction false} Inside(L: Layout, ord: seq<Node>, root: Node?, m: Node, q: int)
    requires Shaped(L, ord, root) && m in L && 0 <= L[m].lo <= q < L[m].hi <= |ord|
    ensures ord[q] in L && L[m].lo <= L[ord[q]].lo && L[ord[q]].hi <= L[m].hi
    ensures ord[q] != m ==> var p := L[ord[q]].up; p in L && L[m].lo <= L[p].lo && L[p].hi <= L[m].hi
    decreases L[m].hi - L[m].lo
  {
    assert Seat(L, ord, root, m) && Slot(L, m, Left) && Slot(L, m, Right);
    if q != L[m].pos {
      var k := if q < L[m].pos then L[m].kids.l else L[m].kids.r;
      assert Seat(L, ord, root, k);
      Inside(L, ord, root, k, q);
    }
  }
}
