/** The tree header and avl_rotation on the nodes themselves. */
module AvlHeap {
  import opened AvlLayout
  import opened AvlRotation

  class AvlTree {
    var root: Node?
    var numnodes: nat
    ghost var L: Layout
    ghost var ord: seq<Node>

    constructor ()
      ensures Valid() && ord == [] && L == map[]
    {
      root, numnodes, L, ord := null, 0, map[], [];
    }

    /** The layout records the links that the nodes hold. */
    ghost predicate Tied()
      reads this, L.Keys`child, L.Keys`parent, L.Keys`childIndex, L.Keys`balance
    {
      forall n | n in L :: TiedAt(n)
    }

    ghost predicate TiedAt(n: Node)
      requires n in L
      reads this, n`child, n`parent, n`childIndex, n`balance
    {
      n.child == L[n].kids && n.parent == L[n].up && n.childIndex == L[n].side && n.balance == L[n].bal
    }

    /** A valid AVL tree whose in-order sequence is `ord`. */
    ghost predicate Valid()
      reads this, L.Keys`child, L.Keys`parent, L.Keys`childIndex, L.Keys`balance
    {
      Linked() && numnodes == |ord| && Off(L, null, Left, 0)
    }

    ghost predicate Linked()
      reads this, L.Keys`child, L.Keys`parent, L.Keys`childIndex, L.Keys`balance
    {
      Tied() && Shaped(L, ord, root)
    }
  }

  ghost function Some(n: Node?): set<Node> {
    if n == null then {} else {n}
  }

  method SetUp(n: Node?, p: Node?, c: Side)
    modifies Some(n)`parent, Some(n)`childIndex
    ensures n != null ==> n.parent == p && n.childIndex == c
  {
    if n != null {
      n.parent := p;
      n.childIndex := c;
    }
  }

  /** Points whatever pointed into the subtree (a parent's child slot, or the root) at `n`. */
  method SetDown(tree: AvlTree, parent: Node?, which: Side, n: Node?)
    modifies tree`root, Some(parent)`child
    ensures parent != null ==> tree.root == old(tree.root) && parent.child == old(parent.child).Put(which, n)
    ensures parent == null ==> tree.root == n
  {
    if parent != null {
      parent.child := parent.child.Put(which, n);
    } else {
      tree.root := n;
    }
  }

  /** Makes `n` the child `c` of `p`, links both ways. */
  method Adopt(p: Node, c: Side, n: Node?)
    modifies p`child, Some(n)`parent, Some(n)`childIndex
    ensures p.child == old(p.child).Put(c, n)
    ensures n != null ==> n.parent == p && n.childIndex == c
  {
    p.child := p.child.Put(c, n);
    SetUp(n, p, c);
  }

  /** avl_rotation, case 1, on the links. */
  method RotateSingle(tree: AvlTree, node: Node, left: Side, child: Node, cright: Node?, parent: Node?)
    requires parent == node.parent
    requires child == node.child.Get(left) && cright == child.child.Get(left.Opp())
    requires node != child && cright !in {node, child}
    requires parent !in {node, child} && (parent != null ==> parent != cright)
    modifies tree`root, {node, child}`balance, {node, child}`child, {node, child}`parent, {node, child}`childIndex
    modifies Some(cright)`parent, Some(cright)`childIndex, Some(parent)`child
    ensures node.child == old(node.child).Put(left, cright) && node.parent == child && node.childIndex == left.Opp()
    ensures child.child == old(child.child).Put(left.Opp(), node)
    ensures child.parent == parent && child.childIndex == old(node.childIndex)
    ensures child.balance == old(child.balance) - left.Weight() && node.balance == -child.balance
    ensures cright != null ==> cright.parent == node && cright.childIndex == left
    ensures parent != null ==>
      tree.root == old(tree.root) && parent.child == old(parent.child).Put(old(node.childIndex), child)
    ensures parent == null ==> tree.root == child
  {
    var which := node.childIndex;
    var childBal := child.balance - left.Weight();
    Adopt(node, left, cright);
    Adopt(child, left.Opp(), node);
    node.balance := -childBal;
    child.balance := childBal;
    SetUp(child, parent, which);
    SetDown(tree, parent, which, child);
  }

  method RotateOnce(tree: AvlTree, node: Node, left: Side) returns (shorter: bool)
    requires tree.Linked() && Has(tree.L, node, left)
    modifies tree`root, tree`L
    modifies tree.L.Keys`child, tree.L.Keys`parent, tree.L.Keys`childIndex, tree.L.Keys`balance
    ensures tree.Linked() && tree.L == RotatedOnce(old(tree.L), node, left)
    ensures shorter == (tree.L[old(tree.L)[node].kids.Get(left)].bal == 0)
  {
    hide RotatedOnce;
    hide Shaped;
    ghost var L, ord, root := tree.L, tree.ord, tree.root;
    Around(L, ord, root, node, left);
    var child := node.child.Get(left);
    RotateSingle(tree, node, left, child, child.child.Get(left.Opp()), node.parent);
    tree.L := RotatedOnce(L, node, left);
    RotatedOnceShaped(L, ord, root, node, left);
    forall n | n in L ensures tree.TiedAt(n) {
      RotatedOnceLinks(L, ord, root, node, left, n);
    }
    shorter := child.balance == 0;
  }

  /** avl_rotation, case 2: the two subtrees of `gchild` go to `node` and `child`. */
  method SplitGrandchild(node: Node, left: Side, child: Node, gleft: Node?, gright: Node?)
    requires node != child && gleft !in {node, child} && gright !in {node, child} && (gleft != null ==> gleft != gright)
    modifies {node, child}`child
    modifies Some(gleft)`parent, Some(gleft)`childIndex, Some(gright)`parent, Some(gright)`childIndex
    ensures node.child == old(node.child).Put(left, gright)
    ensures child.child == old(child.child).Put(left.Opp(), gleft)
    ensures gright != null ==> gright.parent == node && gright.childIndex == left
    ensures gleft != null ==> gleft.parent == child && gleft.childIndex == left.Opp()
  {
    Adopt(node, left, gright);
    Adopt(child, left.Opp(), gleft);
  }

  /** avl_rotation, case 2: `gchild` becomes the parent of `child` and `node`, where `node` was. */
  method RaiseGrandchild(tree: AvlTree, node: Node, left: Side, child: Node, gchild: Node, parent: Node?)
    requires parent == node.parent
    requires node != child && node != gchild && child != gchild && parent !in {node, child, gchild}
    modifies tree`root, gchild`child, Some(parent)`child
    modifies {node, child, gchild}`parent, {node, child, gchild}`childIndex, {node, child, gchild}`balance
    ensures node.parent == gchild && node.childIndex == left.Opp()
    ensures child.parent == gchild && child.childIndex == left
    ensures gchild.child == Kids(null, null).Put(left, child).Put(left.Opp(), node)
    ensures gchild.parent == parent && gchild.childIndex == old(node.childIndex) && gchild.balance == 0
    ensures child.balance == if old(gchild.balance) == -left.Weight() then left.Weight() else 0
    ensures node.balance == if old(gchild.balance) == left.Weight() then -left.Weight() else 0
    ensures parent != null ==>
      tree.root == old(tree.root) && parent.child == old(parent.child).Put(old(node.childIndex), gchild)
    ensures parent == null ==> tree.root == gchild
  {
    var which := node.childIndex;
    var bal := gchild.balance;
    Adopt(gchild, left, child);
    child.balance := if bal == -left.Weight() then left.Weight() else 0;
    Adopt(gchild, left.Opp(), node);
    node.balance := if bal == left.Weight() then -left.Weight() else 0;
    gchild.balance := 0;
    SetUp(gchild, parent, which);
    SetDown(tree, parent, which, gchild);
  }

  /** avl_rotation, case 2, on the links. */
  method RotateDouble(tree: AvlTree, node: Node, left: Side, child: Node, gchild: Node, gleft: Node?, gright: Node?,
                      parent: Node?)
    requires parent == node.parent
    requires gleft == gchild.child.Get(left) && gright == gchild.child.Get(left.Opp())
    requires node != child && node != gchild && child != gchild
    requires gleft !in {node, child, gchild} && gright !in {node, child, gchild} && (gleft != null ==> gleft != gright)
    requires parent !in {node, child, gchild} && (parent != null ==> parent != gleft && parent != gright)
    modifies tree`root, {node, child, gchild}`child, Some(parent)`child
    modifies {node, child, gchild}`parent, {node, child, gchild}`childIndex, {node, child, gchild}`balance
    modifies Some(gleft)`parent, Some(gleft)`childIndex, Some(gright)`parent, Some(gright)`childIndex
    ensures node.child == old(node.child).Put(left, gright) && node.parent == gchild && node.childIndex == left.Opp()
    ensures child.child == old(child.child).Put(left.Opp(), gleft) && child.parent == gchild && child.childIndex == left
    ensures gchild.child == Kids(null, null).Put(left, child).Put(left.Opp(), node)
    ensures gchild.parent == parent && gchild.childIndex == old(node.childIndex) && gchild.balance == 0
    ensures child.balance == if old(gchild.balance) == -left.Weight() then left.Weight() else 0
    ensures node.balance == if old(gchild.balance) == left.Weight() then -left.Weight() else 0
    ensures gleft != null ==> gleft.parent == child && gleft.childIndex == left.Opp()
    ensures gright != null ==> gright.parent == node && gright.childIndex == left
    ensures parent != null ==>
      tree.root == old(tree.root) && parent.child == old(parent.child).Put(old(node.childIndex), gchild)
    ensures parent == null ==> tree.root == gchild
  {
    SplitGrandchild(node, left, child, gleft, gright);
    RaiseGrandchild(tree, node, left, child, gchild, parent);
  }

  method RotateTwice(tree: AvlTree, node: Node, left: Side)
    requires tree.Linked() && Has(tree.L, node, left) && Has(tree.L, tree.L[node].kids.Get(left), left.Opp())
    modifies tree`root, tree`L
    modifies tree.L.Keys`child, tree.L.Keys`parent, tree.L.Keys`childIndex, tree.L.Keys`balance
    ensures tree.Linked() && tree.L == RotatedTwice(old(tree.L), node, left)
  {
    hide RotatedTwice;
    hide Shaped;
    ghost var L, ord, root := tree.L, tree.ord, tree.root;
    AroundTwo(L, ord, root, node, left);
    var child := node.child.Get(left);
    var gchild := child.child.Get(left.Opp());
    RotateDouble(tree, node, left, child, gchild, gchild.child.Get(left), gchild.child.Get(left.Opp()), node.parent);
    tree.L := RotatedTwice(L, node, left);
    RotatedTwiceShaped(L, ord, root, node, left);
    forall n | n in L ensures tree.TiedAt(n) {
      RotatedTwiceLinks(L, ord, root, node, left, n);
    }
  }

  /** AVL_SETBALANCE on a node whose new balance is its real one; the height is what the children
      make it. */
  method Rate(tree: AvlTree, node: Node, c: Side, ghost d: int, bal: int) returns (ghost ht: nat)
    requires tree.Linked() && node in tree.L && Off(tree.L, node, c, d)
    requires bal == tree.L[node].bal + c.Lean(d) && -1 <= bal <= 1
    modifies tree`L, node`balance
    ensures tree.Linked() && tree.L == Rated(old(tree.L), node, bal, ht)
    ensures ht == 1 + Max(Ht(old(tree.L), old(tree.L)[node].kids.l), Ht(old(tree.L), old(tree.L)[node].kids.r))
    ensures Off(tree.L, old(tree.L)[node].up, old(tree.L)[node].side, ht - old(tree.L)[node].ht)
  {
    hide Shaped;
    ghost var L := tree.L;
    ht := 1 + Max(Ht(L, L[node].kids.l), Ht(L, L[node].kids.r));
    RatedShaped(L, tree.ord, tree.root, node, bal, ht);
    RatedOff(L, tree.ord, tree.root, node, c, d, ht);
    hide Off;
    node.balance := bal;
    tree.L := Rated(L, node, bal, ht);
    forall n | n in tree.L ensures tree.TiedAt(n) {
      assert n in L;
    }
  }

  function Tall(balance: int): Side {
    if balance < 0 then Left else Right
  }

  /** avl_rotation.  Before it, the tall side of `node` is two higher than the other, so the subtree
      is one higher than its tall side; afterwards the subtree is as high as the tall side was
      exactly if `shorter`.  Everything is balanced again but the parent, which is out by the
      difference to the height that was recorded for `node`. */
  method Rotation(tree: AvlTree, node: Node, balance: int, ghost w: Side, ghost d: int) returns (shorter: bool)
    requires balance == -2 || balance == 2
    requires tree.Linked() && Has(tree.L, node, Tall(balance)) && Off(tree.L, node, w, d)
    requires var kids := tree.L[node].kids;
      Ht(tree.L, kids.Get(Tall(balance))) == Ht(tree.L, kids.Get(Tall(balance).Opp())) + 2
    modifies tree`root, tree`L
    modifies tree.L.Keys`child, tree.L.Keys`parent, tree.L.Keys`childIndex, tree.L.Keys`balance
    ensures tree.Linked() && tree.L.Keys == old(tree.L.Keys)
    ensures shorter == (old(tree.L)[old(tree.L)[node].kids.Get(Tall(balance))].bal != 0)
    ensures var n := old(tree.L)[node]; var h := Ht(old(tree.L), n.kids.Get(Tall(balance)));
      Off(tree.L, n.up, n.side, (if shorter then h else h + 1) - n.ht)
    ensures var p := old(tree.L)[node].up; p != null ==>
      p in tree.L && tree.L[p].lo == old(tree.L)[p].lo && tree.L[p].hi == old(tree.L)[p].hi
  {
    hide RotatedOnce, RotatedTwice;
    var left := Tall(balance);
    var child := node.child.Get(left);
    ghost var L := tree.L;
    Around(L, tree.ord, tree.root, node, left);
    assert tree.TiedAt(child) && Balanced(L, child);
    hide Shaped, Off;
    if child.balance != -left.Weight() {
      RotatedOnceOff(L, tree.ord, tree.root, node, left, w, d);
      RotatedOnceLinks(L, tree.ord, tree.root, node, left, node);
      shorter := RotateOnce(tree, node, left);
    } else {
      RotatedTwiceOff(L, tree.ord, tree.root, node, left, w, d);
      AroundTwo(L, tree.ord, tree.root, node, left);
      RotateTwice(tree, node, left);
      shorter := true;
    }
  }
}
