/** avl_destroy_nodes. */
module AvlDestroy {
  import opened AvlLayout
  import opened AvlHeap
  import opened AvlPostOrder
  import opened AvlSearch

  /** All the state of a destruction: NULL, a parent with the side just visited, or CHILDBIT. */
  datatype Cookie = Start | At(parent: Node, child: Side) | Finished

  ghost function Elems(s: seq<Node>): set<Node> {
    set n | n in s
  }

  /** The child that `y` still points at, once the nodes up to `last` in post-order have been handed
      out: handed-out children are cleared, except the last one, which is cleared by the next call. */
  ghost function KidLeft(L: Layout, y: Node, c: Side, last: Node): Node?
    requires y in L && last in L
  {
    var k := L[y].kids.Get(c);
    if k != null && k in L && k != last && NoLater(L, k, last) then null else k
  }

  ghost predicate Standing(L: Layout, y: Node, last: Node)
    requires y in L && last in L
    reads y
  {
    && y.parent == L[y].up && y.childIndex == L[y].side
    && y.child == Kids(KidLeft(L, y, Left, last), KidLeft(L, y, Right, last))
  }

  /** A destruction under way: `out` has been handed out, in post-order up to its last element.
      Nothing is said about the nodes in `out`, so they may have been freed or reused. */
  ghost predicate Destroying(tree: AvlTree, cookie: Cookie, out: seq<Node>)
    reads tree, tree.L.Keys - Elems(out)
  {
    && out != [] && var last := out[|out| - 1];
    && Shaped(tree.L, tree.ord, tree.root) && Off(tree.L, null, Left, 0) && last in tree.L
    && cookie == (if tree.L[last].up == null then Finished else At(tree.L[last].up, tree.L[last].side))
    && (forall y | y in tree.L :: y in out <==> NoLater(tree.L, y, last))
    && (forall y | y in tree.L && y !in out :: Standing(tree.L, y, last))
    && Elems(out) <= tree.L.Keys && (forall i, j | 0 <= i < j < |out| :: out[i] != out[j])
    && tree.numnodes + |out| == |tree.ord| + 1
  }

  lemma {:induction false} DistinctSize(s: seq<Node>)
    requires forall i, j | 0 <= i < j < |s| :: s[i] != s[j]
    ensures |Elems(s)| == |s|
  {
    if s != [] {
      var t := s[..|s| - 1];
      DistinctSize(t);
      assert Elems(s) == Elems(t) + {s[|s| - 1]};
    }
  }

  lemma {:induction false} SizeBound(s: seq<Node>)
    ensures |Elems(s)| <= |s|
  {
    if s != [] {
      var t := s[..|s| - 1];
      SizeBound(t);
      assert Elems(s) == Elems(t) + {s[|s| - 1]};
    }
  }

  /** While some node has not been handed out, fewer nodes have been than the tree held. */
  lemma StillSome(L: Layout, ord: seq<Node>, root: Node?, out: seq<Node>, p: Node)
    requires Shaped(L, ord, root) && p in L && p !in out && Elems(out) <= L.Keys
    requires forall i, j | 0 <= i < j < |out| :: out[i] != out[j]
    ensures |out| < |ord|
  {
    var more := out + [p];
    DistinctSize(more);
    SizeBound(ord);
    forall n | n in more ensures n in Elems(ord) {
      assert n in Elems(out) || n == p;
      assert Seat(L, ord, root, n);
    }
    SubsetSize(Elems(more), Elems(ord));
  }

  lemma {:induction false} SubsetSize(a: set<Node>, b: set<Node>)
    requires a <= b
    ensures |a| <= |b|
  {
    if a != {} {
      var x :| x in a;
      SubsetSize(a - {x}, b - {x});
    }
  }

  /** Every child handed out has been cleared. */
  ghost predicate Cleared(L: Layout, y: Node, out: seq<Node>)
    requires y in L
    reads y
  {
    && y.parent == L[y].up && y.childIndex == L[y].side
    && y.child.l == (if L[y].kids.l in out then null else L[y].kids.l)
    && y.child.r == (if L[y].kids.r in out then null else L[y].kids.r)
  }

  /** The start of every call but the first: the parent in the cookie forgets the child handed out last. */
  method ClearLast(tree: AvlTree, cookie: Cookie, ghost out: seq<Node>)
    requires Destroying(tree, cookie, out) && cookie.At?
    modifies tree`numnodes, cookie.parent`child
    ensures Ready(tree, out) && cookie.parent in tree.L && cookie.parent !in out
  {
    ghost var L, last := tree.L, out[|out| - 1];
    var p := cookie.parent;
    Above(L, tree.ord, tree.root, last);
    assert Seat(L, tree.ord, tree.root, last) && Slot(L, p, L[last].side);
    StillSome(L, tree.ord, tree.root, out, p);
    forall y, c | y in L ensures Slot(L, y, c) {
    }
    hide Shaped;
    p.child := p.child.Put(cookie.child, null);
    tree.numnodes := tree.numnodes - 1;
    forall y | y in L && y !in out ensures Cleared(L, y, out) {
      assert Slot(L, y, Left) && Slot(L, y, Right);
    }
  }

  /** What holds between clearing the last child pointer and handing out the next node. */
  ghost predicate Ready(tree: AvlTree, out: seq<Node>)
    reads tree, tree.L.Keys - Elems(out)
  {
    && Shaped(tree.L, tree.ord, tree.root) && Off(tree.L, null, Left, 0)
    && (forall y | y in tree.L && y !in out :: Cleared(tree.L, y, out))
    && Elems(out) <= tree.L.Keys && (forall i, j | 0 <= i < j < |out| :: out[i] != out[j])
    && tree.numnodes + |out| == |tree.ord|
  }

  /** What a call of avl_destroy_nodes finds. */
  ghost predicate Stage(tree: AvlTree, cookie: Cookie, out: seq<Node>)
    reads tree, tree.L.Keys - Elems(out)
  {
    if cookie.Start? then out == [] && tree.Valid() else Destroying(tree, cookie, out)
  }

  function CookieFor(parent: Node?, c: Side): Cookie {
    if parent == null then Finished else At(parent, c)
  }

  /** Handing out the next node in post-order. */
  lemma HandOut(tree: AvlTree, out: seq<Node>, x: Node)
    requires Ready(tree, out) && x in tree.L && x !in out
    requires forall y | y in tree.L :: NoLater(tree.L, y, x) <==> y in out || y == x
    ensures Destroying(tree, CookieFor(x.parent, x.childIndex), out + [x])
    ensures forall c: Side :: tree.L[x].kids.Get(c) != null ==> tree.L[x].kids.Get(c) in out
  {
    var out' := out + [x];
    assert Elems(out') == Elems(out) + {x};
    assert Cleared(tree.L, x, out);
    forall c: Side | tree.L[x].kids.Get(c) != null ensures tree.L[x].kids.Get(c) in out {
      var k := tree.L[x].kids.Get(c);
      assert Slot(tree.L, x, c) && Seat(tree.L, tree.ord, tree.root, x) && Seat(tree.L, tree.ord, tree.root, k);
      assert NoLater(tree.L, k, x);
    }
    forall y | y in tree.L && y !in out' ensures Standing(tree.L, y, x) {
      assert Cleared(tree.L, y, out) && Slot(tree.L, y, Left) && Slot(tree.L, y, Right);
    }
  }

  /** check_right_side: the leftmost node below `r` or, if it has one, its right child. */
  method CheckRightSide(tree: AvlTree, n: Node, ghost r: Node, ghost out: seq<Node>) returns (node: Node)
    requires Ready(tree, out) && r in tree.L && n in tree.L && tree.L[n].lo == tree.L[r].lo && tree.L[n].kids.l == null
    requires forall y | y in out :: tree.L[y].hi <= tree.L[r].lo
    ensures FirstOf(tree.L, r, node) && node !in out
  {
    ghost var L := tree.L;
    assert Seat(L, tree.ord, tree.root, n) && Slot(L, n, Left) && Slot(L, n, Right) && Cleared(L, n, out);
    node := n;
    if L[n].kids.r != null {
      RightIsLeaf(L, tree.ord, tree.root, n);
    }
    if node.child.r != null {
      node := node.child.r;
    }
  }

  /** The node that a first call hands out. */
  method FirstCall(tree: AvlTree) returns (node: Node?)
    requires tree.Valid()
    ensures node == null ==> tree.root == null && tree.ord == [] && tree.L.Keys == {}
    ensures node != null ==>
      Ready(tree, []) && node in tree.L && forall y | y in tree.L :: NoLater(tree.L, y, node) <==> y == node
  {
    ghost var L, ord, root := tree.L, tree.ord, tree.root;
    var first := First(tree);
    if first == null {
      assert forall y | y in L :: Seat(L, ord, root, y);
      return null;
    }
    assert Seat(L, ord, root, first) && Slot(L, first, Left);
    assert root != null && Seat(L, ord, root, root);
    assert L[first].kids.l != null ==> Seat(L, ord, root, L[first].kids.l);
    assert forall y | y in L :: tree.TiedAt(y) && Cleared(L, y, []);
    node := CheckRightSide(tree, first, root, []);
    forall y | y in L ensures NoLater(L, y, node) <==> y == node {
      FirstIsFirst(L, ord, root, root, node, y);
      assert Seat(L, ord, root, y);
    }
  }

  /** The node that comes after the one whose parent and side are `p` and `child`. */
  method NextAfter(tree: AvlTree, p: Node, child: Side, ghost out: seq<Node>) returns (node: Node)
    requires Ready(tree, out) && out != [] && p in tree.L && p !in out
    requires var last := out[|out| - 1];
      && last in tree.L && tree.L[last].up == p && tree.L[last].side == child
      && forall y | y in tree.L :: y in out <==> NoLater(tree.L, y, last)
    ensures node in tree.L && node !in out
    ensures forall y | y in tree.L :: NoLater(tree.L, y, node) <==> y in out || y == node
  {
    ghost var L, ord, root, last := tree.L, tree.ord, tree.root, out[|out| - 1];
    assert Cleared(L, p, out) && Seat(L, ord, root, p) && Seat(L, ord, root, last);
    assert Slot(L, p, child) && Slot(L, p, Right);
    ghost var r := L[p].kids.r;
    assert r != null ==> Seat(L, ord, root, r);
    if child.Right? || p.child.r == null {
      node := p;
      forall y | y in L ensures NoLater(L, y, node) <==> y in out || y == node {
        ParentIsNext(L, ord, root, last, y);
      }
      return;
    }
    forall y | y in out ensures L[y].hi <= L[r].lo {
      assert y in Elems(out);
    }
    node := p.child.r;
    assert Slot(L, node, Left) && Cleared(L, node, out);
    while node.child.l != null
      invariant node in L && node !in out && L[node].lo == L[r].lo && Slot(L, node, Left) && Cleared(L, node, out)
      decreases L[node].hi - L[node].lo
    {
      assert Seat(L, ord, root, node);
      node := node.child.l;
      assert Seat(L, ord, root, node) && Slot(L, node, Left);
      assert node in out ==> node in Elems(out);
    }
    assert Seat(L, ord, root, node);
    assert L[node].kids.l in out ==> L[node].kids.l in Elems(out);
    node := CheckRightSide(tree, node, r, out);
    forall y | y in L ensures NoLater(L, y, node) <==> y in out || y == node {
      FirstIsNext(L, ord, root, last, node, y);
    }
  }

  /** avl_destroy_nodes.  Each call hands out one node that has not been handed out before, after
      all its children, and writes to no node handed out before; when all have been handed out it
      returns NULL with the tree empty. */
  method DestroyNodes(tree: AvlTree, cookie: Cookie, ghost out: seq<Node>)
    returns (node: Node?, next: Cookie, ghost out': seq<Node>)
    requires Stage(tree, cookie, out)
    modifies tree`root, tree`numnodes, (tree.L.Keys - Elems(out))`child
    ensures tree.L == old(tree.L)
    ensures node != null ==>
      && Stage(tree, next, out') && out' == out + [node] && node in tree.L && node !in out
      && forall c: Side :: tree.L[node].kids.Get(c) != null ==> tree.L[node].kids.Get(c) in out
    ensures node == null ==>
      && out' == out && Elems(out) == tree.L.Keys && tree.root == null && tree.numnodes == 0
  {
    out' := out;
    match cookie
    case Start =>
      var first := FirstCall(tree);
      node := first;
      if node == null {
        return null, Finished, out;
      }
      HandOut(tree, out, node);
      next := CookieFor(node.parent, node.childIndex);
      out' := out + [node];
    case At(parent, child) =>
      ParentStands(tree, cookie, out);
      ClearLast(tree, cookie, out);
      node := NextAfter(tree, parent, child, out);
      HandOut(tree, out, node);
      next := CookieFor(node.parent, node.childIndex);
      out' := out + [node];
    case Finished =>
      AllOut(tree, out);
      if tree.root != null {
        tree.root := null;
        tree.numnodes := 0;
      }
      return null, Finished, out;
  }

  lemma ParentStands(tree: AvlTree, cookie: Cookie, out: seq<Node>)
    requires Destroying(tree, cookie, out) && cookie.At?
    ensures cookie.parent in tree.L.Keys - Elems(out)
  {
    var last := out[|out| - 1];
    Above(tree.L, tree.ord, tree.root, last);
    assert Seat(tree.L, tree.ord, tree.root, last) && Slot(tree.L, cookie.parent, tree.L[last].side);
    assert Seat(tree.L, tree.ord, tree.root, cookie.parent);
  }

  /** Once the root has been handed out, so has everything. */
  lemma AllOut(tree: AvlTree, out: seq<Node>)
    requires Destroying(tree, Finished, out)
    ensures Elems(out) == tree.L.Keys && tree.root != null
  {
    var last := out[|out| - 1];
    assert Seat(tree.L, tree.ord, tree.root, last);
    forall y | y in tree.L ensures y in out {
      assert Seat(tree.L, tree.ord, tree.root, y);
      assert NoLater(tree.L, y, last);
    }
  }

  /** What a caller may do to a node it has been handed: here, fill its links with garbage. */
  method Free(n: Node)
    modifies n
  {
    n.child, n.parent, n.balance := Kids(n, n), n, 2;
  }

  /** Every node of `out` comes after its children, and only once. */
  ghost predicate ChildrenFirst(L: Layout, out: seq<Node>) {
    && Elems(out) <= L.Keys
    && (forall i, j | 0 <= i < j < |out| :: out[i] != out[j])
    && (forall i, c: Side | 0 <= i < |out| :: KidsBefore(L, out, i, c))
  }

  ghost predicate KidsBefore(L: Layout, out: seq<Node>, i: int, c: Side)
    requires 0 <= i < |out|
  {
    out[i] in L && (L[out[i]].kids.Get(c) != null ==> L[out[i]].kids.Get(c) in out[..i])
  }

  lemma ChildrenFirstMore(L: Layout, out: seq<Node>, n: Node)
    requires ChildrenFirst(L, out) && n in L && n !in out
    requires forall c: Side :: L[n].kids.Get(c) != null ==> L[n].kids.Get(c) in out
    ensures ChildrenFirst(L, out + [n]) && Elems(out + [n]) == Elems(out) + {n}
    ensures |L.Keys - Elems(out + [n])| < |L.Keys - Elems(out)|
  {
    var more := out + [n];
    forall i, c: Side | 0 <= i < |more| ensures KidsBefore(L, more, i, c) {
      assert i < |out| ==> KidsBefore(L, out, i, c) && more[..i] == out[..i];
      assert more[..|out|] == out;
    }
    assert L.Keys - Elems(out) == (L.Keys - Elems(more)) + {n};
  }

  /** One round of the documented loop: asks for a node and frees it. */
  method TakeAndFree(tree: AvlTree, cookie: Cookie, ghost out: seq<Node>) returns (node: Node?, next: Cookie)
    requires Stage(tree, cookie, out) && ChildrenFirst(tree.L, out)
    modifies tree`root, tree`numnodes, tree.L.Keys
    ensures tree.L == old(tree.L)
    ensures node != null ==>
      && Stage(tree, next, out + [node]) && ChildrenFirst(tree.L, out + [node])
      && |tree.L.Keys - Elems(out + [node])| < |tree.L.Keys - Elems(out)|
    ensures node == null ==> Elems(out) == tree.L.Keys && tree.root == null && tree.numnodes == 0
  {
    var taken, rest, _ := DestroyNodes(tree, cookie, out);
    hide Stage;
    node, next := taken, rest;
    if node != null {
      ChildrenFirstMore(tree.L, out, node);
      hide ChildrenFirst;
      assert node in Elems(out + [node]);
      Free(node);
    }
  }

  /** The documented use of avl_destroy_nodes, freeing every node it returns, visits every node
      exactly once, children before parents, and empties the tree. */
  method DestroyAll(tree: AvlTree) returns (out: seq<Node>)
    requires tree.Valid()
    modifies tree`root, tree`numnodes, tree.L.Keys
    ensures tree.root == null && tree.numnodes == 0
    ensures Elems(out) == old(tree.L.Keys) && ChildrenFirst(old(tree.L), out)
  {
    out := [];
    var cookie := Start;
    assert ChildrenFirst(tree.L, []);
    hide Stage;
    hide ChildrenFirst;
    while true
      invariant tree.L == old(tree.L) && ChildrenFirst(tree.L, out) && Stage(tree, cookie, out)
      decreases |tree.L.Keys - Elems(out)|
    {
      var node, next := TakeAndFree(tree, cookie, out);
      if node == null {
        return;
      }
      out, cookie := out + [node], next;
    }
  }
}
