/** avl_walk, avl_first, avl_last, avl_find and avl_nearest agree with the in-order sequence. */
module AvlSearch {
  import opened AvlLayout
  import opened AvlGap
  import opened AvlHeap
  import opened AvlInsert
  import opened AvlMeaning

  /** Keys increase along the sequence. */
  ghost predicate Sorted(s: seq<Node>)
    reads s`key
  {
    forall i, j | 0 <= i < j < |s| :: s[i].key < s[j].key
  }

  /** The position next to `q` in the given direction. */
  function Beside(q: int, c: Side): int {
    q + c.Weight()
  }

  /** The node at a position, or NULL outside the sequence. */
  function NodeAt(s: seq<Node>, q: int): Node? {
    if 0 <= q < |s| then s[q] else null
  }

  /** Down one side as far as it goes: the node at that end of the stretch of `start`. */
  method Descend(tree: AvlTree, start: Node, c: Side) returns (node: Node)
    requires tree.Linked() && start in tree.L
    ensures node in tree.L && tree.L[node].kids.Get(c) == null
    ensures tree.L[node].pos == if c.Left? then tree.L[start].lo else tree.L[start].hi - 1
  {
    node := start;
    assert Seat(tree.L, tree.ord, tree.root, node) && Slot(tree.L, node, c) && tree.TiedAt(node);
    while node.child.Get(c) != null
      invariant node in tree.L && tree.TiedAt(node) && Seat(tree.L, tree.ord, tree.root, node) && Slot(tree.L, node, c)
      invariant if c.Left? then tree.L[node].lo == tree.L[start].lo else tree.L[node].hi == tree.L[start].hi
      decreases tree.L[node].hi - tree.L[node].lo
    {
      node := node.child.Get(c);
      assert Seat(tree.L, tree.ord, tree.root, node) && Slot(tree.L, node, c) && tree.TiedAt(node);
    }
  }

  /** avl_walk: the predecessor (Left) or successor (Right) in the sequence. */
  method Walk(tree: AvlTree, oldnode: Node?, left: Side) returns (r: Node?)
    requires tree.Linked() && (oldnode != null ==> oldnode in tree.L)
    ensures r == if oldnode == null then null else NodeAt(tree.ord, Beside(tree.L[oldnode].pos, left))
  {
    if oldnode == null {
      return null;
    }
    var node: Node := oldnode;
    assert Seat(tree.L, tree.ord, tree.root, node) && Slot(tree.L, node, left) && tree.TiedAt(node);
    if node.child.Get(left) != null {
      r := Descend(tree, node.child.Get(left), left.Opp());
      assert Seat(tree.L, tree.ord, tree.root, r);
      return;
    }
    while true
      invariant node in tree.L && tree.TiedAt(node) && Seat(tree.L, tree.ord, tree.root, node)
      invariant if left.Left? then tree.L[node].lo == tree.L[oldnode].pos
                else tree.L[node].hi == tree.L[oldnode].pos + 1
      decreases |tree.ord| - (tree.L[node].hi - tree.L[node].lo)
    {
      var was := node.childIndex;
      Above(tree.L, tree.ord, tree.root, node);
      if node.parent == null {
        return null;
      }
      var up: Node := node.parent;
      assert Seat(tree.L, tree.ord, tree.root, up) && Slot(tree.L, up, was) && tree.TiedAt(up);
      node := up;
      if was == left.Opp() {
        return node;
      }
    }
  }

  method First(tree: AvlTree) returns (r: Node?)
    requires tree.Linked()
    ensures r == NodeAt(tree.ord, 0)
  {
    r := End(tree, Left);
  }

  method Last(tree: AvlTree) returns (r: Node?)
    requires tree.Linked()
    ensures r == NodeAt(tree.ord, |tree.ord| - 1)
  {
    r := End(tree, Right);
  }

  /** avl_first and avl_last differ only in the side. */
  method End(tree: AvlTree, c: Side) returns (prev: Node?)
    requires tree.Linked()
    ensures prev == NodeAt(tree.ord, if c.Left? then 0 else |tree.ord| - 1)
  {
    prev := null;
    var node := tree.root;
    if node != null {
      assert Seat(tree.L, tree.ord, tree.root, node);
    }
    while node != null
      invariant node != null ==> node in tree.L && Seat(tree.L, tree.ord, tree.root, node)
      invariant node != null ==> if c.Left? then tree.L[node].lo == 0 else tree.L[node].hi == |tree.ord|
      invariant node == null ==> prev == NodeAt(tree.ord, if c.Left? then 0 else |tree.ord| - 1)
      decreases if node == null then 0 else tree.L[node].hi - tree.L[node].lo
    {
      prev := node;
      assert Slot(tree.L, node, c) && tree.TiedAt(node);
      node := node.child.Get(c);
      if node != null {
        assert Seat(tree.L, tree.ord, tree.root, node);
      }
    }
  }

  /** avl_nearest: the node just before (Left) or after (Right) an insertion point. */
  method Nearest(tree: AvlTree, where: Index, direction: Side) returns (r: Node?)
    requires tree.Linked() && (where.node != null ==> Open(tree.L, tree.root, where.node, where.child))
    ensures where.node == null ==> r == null
    ensures where.node != null ==> var g := Gap(tree.L, where.node, where.child);
      r == NodeAt(tree.ord, if direction.Left? then g - 1 else g)
  {
    if where.node == null {
      return null;
    }
    assert Seat(tree.L, tree.ord, tree.root, where.node) && Slot(tree.L, where.node, where.child);
    if where.child != direction {
      return where.node;
    }
    r := Walk(tree, where.node, direction);
  }

  /** fileset_entry_compare on two indices. */
  function Compare(a: int, b: int): (diff: int)
    ensures -1 <= diff <= 1
    ensures (diff < 0 <==> a < b) && (diff > 0 <==> b < a)
  {
    if a < b then -1 else if a == b then 0 else 1
  }

  /** The search interval of avl_find: everything left of the stretch of the node (or of the empty
      slot) is smaller than the value, everything right of it larger. */
  ghost predicate Brackets(s: seq<Node>, lo: int, hi: int, value: int)
    reads s
  {
    && 0 <= lo <= hi <= |s|
    && (forall i | 0 <= i < lo :: s[i].key < value)
    && (forall i | hi <= i < |s| :: value < s[i].key)
  }

  /** One comparison of avl_find narrows the interval to one child. */
  lemma Narrow(L: Layout, ord: seq<Node>, root: Node?, n: Node, value: int)
    requires Shaped(L, ord, root) && n in L && Sorted(ord) && Brackets(ord, L[n].lo, L[n].hi, value)
    ensures value < n.key ==> Brackets(ord, L[n].lo, L[n].pos, value)
    ensures n.key < value ==> Brackets(ord, L[n].pos + 1, L[n].hi, value)
  {
    assert Seat(L, ord, root, n);
  }

  /** A tree that is at least v high has at least Fib(v + 2) - 1 nodes. */
  lemma VisitBound(tree: AvlTree, v: nat)
    requires tree.Valid() && v <= Ht(tree.L, tree.root)
    ensures Fib(v + 2) - 1 <= tree.numnodes
  {
    var root := tree.root;
    if root != null {
      assert Seat(tree.L, tree.ord, root, root) && Slot(tree.L, root, Left) && Slot(tree.L, root, Right);
    }
    HeightBound(tree.L, tree.ord, root, root);
    FibMonotone(v + 2, Ht(tree.L, root) + 2);
  }

  /** avl_find: the node with the given key, or the insertion point that separates the smaller keys
      from the larger ones; it compares no more nodes than the tree is high, so v comparisons need a
      tree of at least Fib(v + 2) - 1 nodes. */
  method Find(tree: AvlTree, value: int) returns (found: Node?, where: Index, ghost visits: nat)
    requires tree.Valid() && Sorted(tree.ord)
    ensures found != null ==> found in tree.L && found.key == value && where == Index(null, Left)
    ensures found == null ==>
      && Open(tree.L, tree.root, where.node, where.child)
      && Brackets(tree.ord, Gap(tree.L, where.node, where.child), Gap(tree.L, where.node, where.child), value)
    ensures visits <= Ht(tree.L, tree.root) && Fib(visits + 2) - 1 <= tree.numnodes
  {
    var node, prev, child := tree.root, null, Left;
    visits := 0;
    if node != null {
      assert Seat(tree.L, tree.ord, tree.root, node);
    }
    while node != null
      invariant node != null ==> node in tree.L && Brackets(tree.ord, tree.L[node].lo, tree.L[node].hi, value)
      invariant node == null ==> Open(tree.L, tree.root, prev, child)
      invariant node == null ==> Brackets(tree.ord, Gap(tree.L, prev, child), Gap(tree.L, prev, child), value)
      invariant visits + Ht(tree.L, node) <= Ht(tree.L, tree.root)
      decreases if node == null then 0 else 1 + tree.L[node].hi - tree.L[node].lo
    {
      prev := node;
      visits := visits + 1;
      assert tree.TiedAt(node) && Balanced(tree.L, node);
      Narrow(tree.L, tree.ord, tree.root, node, value);
      var diff := Compare(value, node.key);
      if diff == 0 {
        VisitBound(tree, visits);
        return node, Index(null, Left), visits;
      }
      child := if diff < 0 then Left else Right;
      assert Seat(tree.L, tree.ord, tree.root, node) && Slot(tree.L, node, child);
      node := node.child.Get(child);
      if node != null {
        assert Seat(tree.L, tree.ord, tree.root, node);
      }
    }
    VisitBound(tree, visits);
    return null, Index(prev, child), visits;
  }
}
