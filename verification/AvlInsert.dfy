/** avl_insert. */
module AvlInsert {
  import opened AvlLayout
  import opened AvlRotation
  import opened AvlGap
  import opened AvlHeap

  /** An insertion point: a node and which of its child slots (avl_index_t). */
  datatype Index = Index(node: Node?, child: Side)

  /** A subtree that has just become higher is a leaf or leans to one side. */
  ghost predicate Grew(L: Layout, k: Node?) {
    k in L && (L[k].bal != 0 || L[k].ht == 1)
  }

  /** What growth by one on side `c` of `n` means for the heights around it. */
  lemma GrowthCases(L: Layout, n: Node, c: Side)
    requires Has(L, n, c) && Off(L, n, c, 1) && Grew(L, L[n].kids.Get(c))
    ensures var k := L[n].kids.Get(c); var h := 1 + Max(Ht(L, L[n].kids.l), Ht(L, L[n].kids.r));
      && (L[n].bal == -c.Weight() ==> h == L[n].ht)
      && (L[n].bal == 0 ==> h == L[n].ht + 1)
      && (L[n].bal == c.Weight() ==> Ht(L, k) == Ht(L, L[n].kids.Get(c.Opp())) + 2 == L[n].ht && L[k].bal != 0)
      && (L[n].bal == -c.Weight() || L[n].bal == 0 || L[n].bal == c.Weight())
  {
  }

  /** One step of the upward loop of avl_insert: the subtree on side `which` of `node` has grown by
      one.  Either the growth stops here, after at most one rotation, or `node` has grown too. */
  method ClimbStep(tree: AvlTree, node: Node, which: Side) returns (done: bool)
    requires tree.Linked() && Off(tree.L, node, which, 1)
    requires Has(tree.L, node, which) && Grew(tree.L, tree.L[node].kids.Get(which))
    modifies tree`root, tree`L
    modifies tree.L.Keys`child, tree.L.Keys`parent, tree.L.Keys`childIndex, tree.L.Keys`balance
    ensures tree.Linked() && tree.L.Keys == old(tree.L.Keys)
    ensures done ==> Off(tree.L, null, Left, 0)
    ensures !done ==>
      && Off(tree.L, tree.L[node].up, tree.L[node].side, 1) && Grew(tree.L, node)
      && tree.L[node].lo == old(tree.L)[node].lo && tree.L[node].hi == old(tree.L)[node].hi
  {
    hide Shaped;
    assert tree.TiedAt(node);
    GrowthCases(tree.L, node, which);
    hide Off;
    var oldBalance := node.balance;
    var newBalance := oldBalance + which.Weight();
    if newBalance == 0 {
      ghost var _ := Rate(tree, node, which, 1, 0);
      OffZero(tree.L, old(tree.L)[node].up, old(tree.L)[node].side, 0);
      return true;
    }
    if oldBalance != 0 {
      var _ := Rotation(tree, node, newBalance, which, 1);
      OffZero(tree.L, old(tree.L)[node].up, old(tree.L)[node].side, 0);
      return true;
    }
    ghost var _ := Rate(tree, node, which, 1, newBalance);
    return false;
  }

  /** The upward loop of avl_insert. */
  method Climb(tree: AvlTree, start: Node?, side: Side)
    requires tree.Linked() && Off(tree.L, start, side, 1)
    requires start != null ==> Has(tree.L, start, side) && Grew(tree.L, tree.L[start].kids.Get(side))
    modifies tree`root, tree`L
    modifies tree.L.Keys`child, tree.L.Keys`parent, tree.L.Keys`childIndex, tree.L.Keys`balance
    ensures tree.Linked() && tree.L.Keys == old(tree.L.Keys) && Off(tree.L, null, Left, 0)
  {
    hide Shaped;
    var parent, which := start, side;
    if start != null {
      Above(tree.L, tree.ord, tree.root, start);
    }
    ghost var room := |tree.ord| + 1;
    while parent != null
      invariant tree.Linked() && tree.L.Keys == old(tree.L.Keys)
      invariant Off(tree.L, parent, which, 1)
      invariant parent != null ==> Has(tree.L, parent, which) && Grew(tree.L, tree.L[parent].kids.Get(which))
      invariant 0 <= room
      invariant parent != null ==> |tree.ord| < room + (tree.L[parent].hi - tree.L[parent].lo)
      decreases room
    {
      var node := parent;
      Above(tree.L, tree.ord, tree.root, node);
      var done := ClimbStep(tree, node, which);
      if done {
        return;
      }
      Above(tree.L, tree.ord, tree.root, node);
      assert tree.TiedAt(node);
      room := |tree.ord| - (tree.L[node].hi - tree.L[node].lo);
      parent, which := node.parent, node.childIndex;
    }
  }

  /** avl_insert: attaches `node` at an open slot and restores balance on the way up. */
  method Insert(tree: AvlTree, node: Node, where: Index)
    requires tree.Valid() && node !in tree.L && Open(tree.L, tree.root, where.node, where.child)
    modifies tree
    modifies tree.L.Keys`child, tree.L.Keys`parent, tree.L.Keys`childIndex, tree.L.Keys`balance
    modifies node`child, node`parent, node`childIndex, node`balance
    ensures tree.Valid() && tree.L.Keys == old(tree.L.Keys) + {node}
    ensures var i := Gap(old(tree.L), where.node, where.child);
      0 <= i <= |old(tree.ord)| && tree.ord == InsertAt(old(tree.ord), i, node)
  {
    AddLeaf(tree, node, where.node, where.child);
    Climb(tree, where.node, where.child);
  }

  /** The first half of avl_insert: hooks the new leaf in. */
  method AddLeaf(tree: AvlTree, node: Node, parent: Node?, which: Side)
    requires tree.Valid() && node !in tree.L && Open(tree.L, tree.root, parent, which)
    modifies tree, Some(parent)`child
    modifies node`child, node`parent, node`childIndex, node`balance
    ensures tree.Linked() && tree.numnodes == |tree.ord| && tree.L == Inserted(old(tree.L), node, parent, which)
    ensures Off(tree.L, parent, which, 1)
    ensures var i := Gap(old(tree.L), parent, which);
      0 <= i <= |old(tree.ord)| && tree.ord == InsertAt(old(tree.ord), i, node)
  {
    hide Shaped;
    hide Inserted;
    ghost var L, ord, root := tree.L, tree.ord, tree.root;
    InsertedShaped(L, ord, root, node, parent, which);
    InsertedOff(L, ord, root, node, parent, which);
    hide Off;
    tree.numnodes := tree.numnodes + 1;
    node.child := Kids(null, null);
    node.childIndex := which;
    node.balance := 0;
    node.parent := parent;
    SetDown(tree, parent, which, node);
    tree.L := Inserted(L, node, parent, which);
    tree.ord := InsertAt(ord, Gap(L, parent, which), node);
    forall n | n in tree.L ensures tree.TiedAt(n) {
      InsertedLinks(L, node, parent, which, n);
    }
  }
}
