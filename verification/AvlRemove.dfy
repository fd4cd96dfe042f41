/** avl_remove. */
module AvlRemove {
  import opened AvlLayout
  import opened AvlRotation
  import opened AvlDrop
  import opened AvlHeap
  import opened AvlSearch

  method Copy(to: Node, from: Node)
    modifies to`child, to`parent, to`childIndex, to`balance
    ensures to.child == old(from.child) && to.parent == old(from.parent)
    ensures to.childIndex == old(from.childIndex) && to.balance == old(from.balance)
  {
    to.child, to.parent, to.childIndex, to.balance := from.child, from.parent, from.childIndex, from.balance;
  }

  /** The first half of the swap: `tmp` is a copy of `node`, which takes over the links of `del`. */
  method TakePlace(tree: AvlTree, del: Node, node: Node, tmp: Node, left: Side, dp: Node?, dl: Node, dr: Node)
    requires del != node && tmp !in {del, node, dp, dl, dr}
    requires dp == del.parent && dl == del.child.Get(left) && dr == del.child.Get(left.Opp())
    requires dp !in {del, node, dl, dr} && dl !in {del, dr} && dr !in {del, node}
    modifies tree`root, {node, tmp}`child, {node, tmp}`parent, {node, tmp}`childIndex, {node, tmp}`balance
    modifies dl`parent, dr`parent, Some(dp)`child
    ensures node.child == if dl == node then old(del.child).Put(left, tmp) else old(del.child)
    ensures node.parent == dp && node.childIndex == old(del.childIndex) && node.balance == old(del.balance)
    ensures tmp.child == old(node.child) && tmp.childIndex == old(node.childIndex) && tmp.balance == old(node.balance)
    ensures tmp.parent == if dl == node then node else old(node.parent)
    ensures dl != node ==> dl.parent == node
    ensures dr.parent == node
    ensures dp != null ==> tree.root == old(tree.root) && dp.child == old(dp.child).Put(old(del.childIndex), node)
    ensures dp == null ==> tree.root == node
  {
    Copy(tmp, node);
    Copy(node, del);
    if node.child.Get(left) == node {
      node.child := node.child.Put(left, tmp);
    }
    SetDown(tree, dp, node.childIndex, node);
    var kid: Node := node.child.Get(left);
    kid.parent := node;
    kid := node.child.Get(left.Opp());
    kid.parent := node;
  }

  /** The second half: whatever pointed at `node` in its old place points at `tmp`. */
  method PutPlaceholder(tmp: Node, np: Node, nk: Node?)
    requires np == tmp.parent && nk == (if tmp.child.r != null then tmp.child.r else tmp.child.l)
    requires tmp != np && (nk != null ==> nk != tmp)
    modifies np`child, Some(nk)`parent
    ensures np.child == old(np.child).Put(tmp.childIndex, tmp)
    ensures nk != null ==> nk.parent == tmp
  {
    var parent: Node := tmp.parent;
    parent.child := parent.child.Put(tmp.childIndex, tmp);
    var which := if tmp.child.Get(Right) != null then Right else Left;
    if tmp.child.Get(which) != null {
      var kid: Node := tmp.child.Get(which);
      kid.parent := tmp;
    }
  }

  /** Both halves: the neighbours of `del` point at `node`, those of `node` at `tmp`. */
  method SwapLinks(tree: AvlTree, del: Node, node: Node, tmp: Node, left: Side,
                   dp: Node?, dl: Node, dr: Node, np: Node, nk: Node?)
    requires del != node && tmp !in {del, node, dp, dl, dr, np, nk}
    requires dp == del.parent && dl == del.child.Get(left) && dr == del.child.Get(left.Opp())
    requires np == node.parent && nk == node.child.Get(left) && node.child.Get(left.Opp()) == null
    requires dp !in {del, node, dl, dr, np} && dl !in {del, dr} && dr !in {del, node, np} && np != node
    requires nk !in {del, node, dl, dr, np} && (dp != null ==> dp != nk)
    requires (dl == node <==> np == del) && (dl == node ==> node.childIndex == left)
    modifies tree`root, {node, tmp}`child, {node, tmp}`parent, {node, tmp}`childIndex, {node, tmp}`balance
    modifies dl`parent, dr`parent, Some(dp)`child, (if np == del then {} else {np})`child, Some(nk)`parent
    ensures node.child == if dl == node then old(del.child).Put(left, tmp) else old(del.child)
    ensures node.parent == dp && node.childIndex == old(del.childIndex) && node.balance == old(del.balance)
    ensures tmp.child == old(node.child) && tmp.childIndex == old(node.childIndex) && tmp.balance == old(node.balance)
    ensures tmp.parent == if dl == node then node else np
    ensures dl != node ==> dl.parent == node
    ensures dr.parent == node
    ensures dp != null ==> tree.root == old(tree.root) && dp.child == old(dp.child).Put(old(del.childIndex), node)
    ensures dp == null ==> tree.root == node
    ensures np != del ==> np.child == old(np.child).Put(old(node.childIndex), tmp)
    ensures nk != null ==> nk.parent == tmp
  {
    TakePlace(tree, del, node, tmp, left, dp, dl, dr);
    PutPlaceholder(tmp, tmp.parent, nk);
  }

  /** The swap on the links: `node` stands where `del` was, `tmp` where `node` was. */
  method Relabel(tree: AvlTree, del: Node, node: Node, tmp: Node, left: Side)
    requires tree.Linked() && Neighbour(tree.L, del, node, left) && tmp !in tree.L && del != node
    modifies tree`root, tree`L, tmp
    modifies tree.L.Keys`child, tree.L.Keys`parent, tree.L.Keys`childIndex, tree.L.Keys`balance
    ensures tree.Tied() && tree.L == Renamed(old(tree.L), del, node, tmp)
    ensures tree.root == Ren(old(tree.root), del, node, tmp)
  {
    hide Shaped;
    hide Renamed;
    ghost var L, ord, root := tree.L, tree.ord, tree.root;
    AroundNeighbour(L, ord, root, del, node, left);
    assert tree.TiedAt(del) && tree.TiedAt(node);
    SwapLinks(tree, del, node, tmp, left, del.parent, del.child.Get(left), del.child.Get(left.Opp()),
              node.parent, node.child.Get(left));
    tree.L := Renamed(L, del, node, tmp);
    forall y | y in tree.L ensures tree.TiedAt(y) {
      RenamedLinks(L, ord, root, del, node, tmp, left, y);
    }
  }

  /** Swaps `del`, which has two children, with its neighbour on the taller side, leaving a
      placeholder with at most one child where the neighbour was. */
  method SwapOut(tree: AvlTree, del: Node) returns (tmp: Node)
    requires tree.Valid() && Has(tree.L, del, Left) && Has(tree.L, del, Right)
    modifies tree`root, tree`L, tree`ord
    modifies tree.L.Keys`child, tree.L.Keys`parent, tree.L.Keys`childIndex, tree.L.Keys`balance
    ensures tree.Valid() && fresh(tmp) && Half(tree.L, tmp) && tree.L.Keys == old(tree.L.Keys) - {del} + {tmp}
    ensures 0 <= old(tree.L)[del].pos < |old(tree.ord)| && 0 <= tree.L[tmp].pos < |tree.ord|
    ensures RemoveAt(tree.ord, tree.L[tmp].pos) == RemoveAt(old(tree.ord), old(tree.L)[del].pos)
  {
    hide Shaped;
    hide Renamed;
    hide Off;
    ghost var L, ord, root := tree.L, tree.ord, tree.root;
    assert tree.TiedAt(del);
    var left := if del.balance == 1 then Right else Left;
    var node := Descend(tree, del.child.Get(left), left.Opp());
    NeighbourFound(L, ord, root, del, node, left);
    tmp := new Node(0);
    RenamedOff(L, ord, root, del, node, tmp);
    RenamedRemoved(L, ord, root, del, node, tmp, left);
    RenamedShaped(L, ord, root, del, node, tmp);
    Relabel(tree, del, node, tmp, left);
    tree.ord := RenSeq(L, ord, del, node, tmp);
  }

  /** Connects the parent of `del` directly to its only child. */
  method Unlink(tree: AvlTree, del: Node) returns (parent: Node?, which: Side)
    requires tree.Valid() && Half(tree.L, del)
    modifies tree
    modifies tree.L.Keys`child, tree.L.Keys`parent, tree.L.Keys`childIndex
    ensures tree.Linked() && tree.numnodes == |tree.ord| && tree.L == Removed(old(tree.L), del)
    ensures parent != null ==> parent in tree.L
    ensures parent == old(tree.L)[del].up && which == old(tree.L)[del].side && Off(tree.L, parent, which, -1)
    ensures 0 <= old(tree.L)[del].pos < |old(tree.ord)| && tree.ord == RemoveAt(old(tree.ord), old(tree.L)[del].pos)
  {
    hide Shaped;
    hide Removed;
    hide Off;
    ghost var L, ord, root := tree.L, tree.ord, tree.root;
    Lone(L, ord, root, del);
    RemovedShaped(L, ord, root, del);
    RemovedOff(L, ord, root, del);
    assert tree.TiedAt(del);
    tree.numnodes := tree.numnodes - 1;
    parent, which := del.parent, del.childIndex;
    var node := if del.child.Get(Left) != null then del.child.Get(Left) else del.child.Get(Right);
    SetUp(node, parent, which);
    SetDown(tree, parent, which, node);
    tree.L, tree.ord := Removed(L, del), RemoveAt(ord, L[del].pos);
    forall y | y in tree.L ensures tree.TiedAt(y) {
      RemovedLinks(L, ord, root, del, y);
    }
  }

  /** What shrinking by one on side `c` of `n` means for the heights around it. */
  lemma ShrinkCases(L: Layout, n: Node, c: Side)
    requires n in L && Off(L, n, c, -1) && (forall e: Side :: L[n].kids.Get(e) != null ==> L[n].kids.Get(e) in L)
    ensures var k := L[n].kids.Get(c.Opp()); var h := 1 + Max(Ht(L, L[n].kids.l), Ht(L, L[n].kids.r));
      && (L[n].bal == 0 ==> h == L[n].ht)
      && (L[n].bal == c.Weight() ==> h == L[n].ht - 1)
      && (L[n].bal == -c.Weight() ==> Has(L, n, c.Opp()) && Ht(L, k) == Ht(L, L[n].kids.Get(c)) + 2 == L[n].ht - 1)
      && (L[n].bal == -c.Weight() || L[n].bal == 0 || L[n].bal == c.Weight())
  {
  }

  /** One step of the loop of avl_remove: the subtree on side `which` of `node` has become one
      lower.  The loop stops exactly when the height at `node` has not changed. */
  method SinkStep(tree: AvlTree, node: Node, which: Side) returns (done: bool)
    requires tree.Linked() && node in tree.L && Off(tree.L, node, which, -1)
    modifies tree`root, tree`L
    modifies tree.L.Keys`child, tree.L.Keys`parent, tree.L.Keys`childIndex, tree.L.Keys`balance
    ensures tree.Linked() && tree.L.Keys == old(tree.L.Keys)
    ensures var n := old(tree.L)[node]; Off(tree.L, n.up, n.side, if done then 0 else -1)
    ensures var p := old(tree.L)[node].up; p != null ==>
      p in tree.L && tree.L[p].lo == old(tree.L)[p].lo && tree.L[p].hi == old(tree.L)[p].hi
  {
    assert Slot(tree.L, node, Left) && Slot(tree.L, node, Right);
    hide Shaped;
    assert tree.TiedAt(node);
    Above(tree.L, tree.ord, tree.root, node);
    ShrinkCases(tree.L, node, which);
    hide Off;
    var oldBalance := node.balance;
    var newBalance := oldBalance - which.Weight();
    if oldBalance == 0 {
      ghost var _ := Rate(tree, node, which, -1, newBalance);
      return true;
    }
    if newBalance == 0 {
      ghost var _ := Rate(tree, node, which, -1, newBalance);
      return false;
    }
    var shorter := Rotation(tree, node, newBalance, which, -1);
    return !shorter;
  }

  /** The loop of avl_remove, from the parent of the removed node upwards. */
  method Sink(tree: AvlTree, start: Node, side: Side)
    requires tree.Linked() && start in tree.L && Off(tree.L, start, side, -1)
    modifies tree`root, tree`L
    modifies tree.L.Keys`child, tree.L.Keys`parent, tree.L.Keys`childIndex, tree.L.Keys`balance
    ensures tree.Linked() && tree.L.Keys == old(tree.L.Keys) && Off(tree.L, null, Left, 0)
  {
    hide Shaped;
    var parent: Node?, which := start, side;
    ghost var room := |tree.ord| + 1;
    Above(tree.L, tree.ord, tree.root, start);
    while parent != null
      invariant tree.Linked() && tree.L.Keys == old(tree.L.Keys)
      invariant Off(tree.L, parent, which, -1)
      invariant 0 <= room
      invariant parent != null ==> parent in tree.L && |tree.ord| < room + (tree.L[parent].hi - tree.L[parent].lo)
      decreases room
    {
      var node := parent;
      assert tree.TiedAt(node);
      Above(tree.L, tree.ord, tree.root, node);
      room := |tree.ord| - (tree.L[node].hi - tree.L[node].lo);
      var was := which;
      parent, which := node.parent, node.childIndex;
      var done := SinkStep(tree, node, was);
      if done {
        OffZero(tree.L, parent, which, 0);
        return;
      }
    }
  }

  /** The part of avl_remove for a node with at most one child. */
  method RemoveHalf(tree: AvlTree, delete: Node)
    requires tree.Valid() && Half(tree.L, delete)
    modifies tree
    modifies tree.L.Keys`child, tree.L.Keys`parent, tree.L.Keys`childIndex, tree.L.Keys`balance
    ensures tree.Valid() && tree.L.Keys == old(tree.L.Keys) - {delete}
    ensures 0 <= old(tree.L)[delete].pos < |old(tree.ord)|
    ensures tree.ord == RemoveAt(old(tree.ord), old(tree.L)[delete].pos)
  {
    hide Shaped;
    hide Off;
    var parent, which := Unlink(tree, delete);
    if parent == null {
      OffZero(tree.L, parent, which, -1);
    } else {
      Sink(tree, parent, which);
    }
  }

  /** avl_remove: takes exactly `data` out of the sequence and leaves a valid tree. */
  method Remove(tree: AvlTree, data: Node)
    requires tree.Valid() && data in tree.L
    modifies tree
    modifies tree.L.Keys`child, tree.L.Keys`parent, tree.L.Keys`childIndex, tree.L.Keys`balance
    ensures tree.Valid() && tree.L.Keys == old(tree.L.Keys) - {data}
    ensures 0 <= old(tree.L)[data].pos < |old(tree.ord)| && old(tree.ord)[old(tree.L)[data].pos] == data
    ensures tree.ord == RemoveAt(old(tree.ord), old(tree.L)[data].pos)
  {
    assert Seat(tree.L, tree.ord, tree.root, data) && Slot(tree.L, data, Left) && Slot(tree.L, data, Right);
    hide Shaped;
    hide Off;
    hide RemoveAt;
    assert tree.TiedAt(data);
    var delete := data;
    if data.child.Get(Left) != null && data.child.Get(Right) != null {
      delete := SwapOut(tree, data);
    }
    RemoveHalf(tree, delete);
  }
}
