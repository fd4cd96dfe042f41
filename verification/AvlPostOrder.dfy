/** Post-order on a layout, by stretches: which nodes come no later than a given one, and what the
    next node is. */
module AvlPostOrder {
  import opened AvlLayout

  /** `y` comes no later than `x` in post-order: it lies wholly before `x` or in its subtree. */
  predicate NoLater(L: Layout, y: Node, x: Node)
    requires y in L && x in L
  {
    L[y].hi <= L[x].lo || (L[x].lo <= L[y].lo && L[y].hi <= L[x].hi)
  }

  /** Two subtrees are nested or apart. */
  lemma {:induction false} Nested(L: Layout, ord: seq<Node>, root: Node?, m: Node, u: Node, v: Node)
    requires Shaped(L, ord, root) && m in L && u in L && v in L
    requires L[m].lo <= L[u].pos < L[m].hi && L[m].lo <= L[v].pos < L[m].hi
    ensures L[u].hi <= L[v].lo || L[v].hi <= L[u].lo || NoLater(L, u, v) || NoLater(L, v, u)
    decreases L[m].hi - L[m].lo
  {
    assert Seat(L, ord, root, m) && Slot(L, m, Left) && Slot(L, m, Right);
    assert Seat(L, ord, root, u) && Seat(L, ord, root, v);
    Inside(L, ord, root, m, L[u].pos);
    Inside(L, ord, root, m, L[v].pos);
    if u != m && v != m {
      if L[u].pos < L[m].pos {
        Inside(L, ord, root, L[m].kids.l, L[u].pos);
      } else {
        Inside(L, ord, root, L[m].kids.r, L[u].pos);
      }
      if L[v].pos < L[m].pos {
        Inside(L, ord, root, L[m].kids.l, L[v].pos);
      } else {
        Inside(L, ord, root, L[m].kids.r, L[v].pos);
      }
      if L[u].pos < L[m].pos && L[v].pos < L[m].pos {
        Nested(L, ord, root, L[m].kids.l, u, v);
      } else if L[m].pos < L[u].pos && L[m].pos < L[v].pos {
        Nested(L, ord, root, L[m].kids.r, u, v);
      }
    }
  }

  /** Where `y` can lie with respect to `p`. */
  lemma Relative(L: Layout, ord: seq<Node>, root: Node?, y: Node, p: Node)
    requires Shaped(L, ord, root) && y in L && p in L && y != p
    ensures
      || L[y].hi <= L[p].lo || L[p].hi <= L[y].lo
      || (L[p].lo <= L[y].lo && L[y].hi <= L[p].pos)
      || (L[p].pos < L[y].lo && L[y].hi <= L[p].hi)
      || (L[y].lo <= L[p].lo && L[p].hi <= L[y].hi && (L[y].lo < L[p].lo || L[p].hi < L[y].hi))
  {
    assert Seat(L, ord, root, y) && Seat(L, ord, root, p) && Seat(L, ord, root, root);
    Nested(L, ord, root, root, y, p);
    assert Slot(L, p, Left) && Slot(L, p, Right);
    if L[p].lo <= L[y].lo && L[y].hi <= L[p].hi {
      if L[y].pos < L[p].pos {
        Inside(L, ord, root, L[p].kids.l, L[y].pos);
      } else {
        Inside(L, ord, root, L[p].kids.r, L[y].pos);
      }
    } else if L[y].lo <= L[p].lo && L[p].hi <= L[y].hi {
    }
  }

  /** After a right child, or a left child without a sibling, comes the parent. */
  lemma ParentIsNext(L: Layout, ord: seq<Node>, root: Node?, x: Node, y: Node)
    requires Shaped(L, ord, root) && x in L && y in L && L[x].up != null && L[x].up in L
    requires L[x].side.Right? || L[L[x].up].kids.r == null
    ensures NoLater(L, y, L[x].up) <==> NoLater(L, y, x) || y == L[x].up
  {
    var p := L[x].up;
    assert Seat(L, ord, root, x) && Seat(L, ord, root, y) && Seat(L, ord, root, p);
    assert Slot(L, p, L[x].side) && Slot(L, p, Right);
    if y != p {
      Relative(L, ord, root, y, p);
    }
  }

  /** `f` is the first node in post-order of the subtree at `r`: the leftmost node or, if that has a
      right child, that child. */
  ghost predicate FirstOf(L: Layout, r: Node, f: Node) {
    && r in L && f in L && L[f].hi == L[f].lo + 1
    && (L[f].lo == L[r].lo ||
        (L[f].up in L && L[L[f].up].lo == L[r].lo == L[L[f].up].pos && L[f].lo == L[r].lo + 1))
  }

  /** Of the nodes no later than the first one of a subtree, all others lie before the subtree. */
  lemma FirstIsFirst(L: Layout, ord: seq<Node>, root: Node?, r: Node, f: Node, y: Node)
    requires Shaped(L, ord, root) && FirstOf(L, r, f) && y in L
    ensures NoLater(L, y, f) <==> L[y].hi <= L[r].lo || y == f
  {
    assert Seat(L, ord, root, f) && Seat(L, ord, root, y) && Seat(L, ord, root, r);
    if L[f].lo != L[r].lo {
      var n := L[f].up;
      assert Seat(L, ord, root, n) && Slot(L, n, L[f].side);
      if y != n {
        Relative(L, ord, root, y, n);
      }
    }
    if y != f {
      Relative(L, ord, root, y, f);
    }
  }

  /** After a left child with a sibling comes the first node of the sibling's subtree. */
  lemma FirstIsNext(L: Layout, ord: seq<Node>, root: Node?, x: Node, f: Node, y: Node)
    requires Shaped(L, ord, root) && x in L && y in L && L[x].up != null && L[x].up in L && L[x].side.Left?
    requires L[L[x].up].kids.r != null && FirstOf(L, L[L[x].up].kids.r, f)
    ensures NoLater(L, y, f) <==> NoLater(L, y, x) || y == f
  {
    var p := L[x].up;
    var r := L[p].kids.r;
    assert Seat(L, ord, root, x) && Seat(L, ord, root, y) && Seat(L, ord, root, p) && Seat(L, ord, root, r);
    assert Slot(L, p, Left) && Slot(L, p, Right);
    FirstIsFirst(L, ord, root, r, f, y);
    if y != p {
      Relative(L, ord, root, y, p);
    }
  }

  /** A leftmost node of a balanced tree has at most a leaf to its right. */
  lemma RightIsLeaf(L: Layout, ord: seq<Node>, root: Node?, n: Node)
    requires Shaped(L, ord, root) && n in L && Off(L, null, Left, 0)
    requires L[n].kids.l == null && L[n].kids.r != null
    ensures var f := L[n].kids.r;
      f in L && L[f].kids == Kids(null, null) && L[f].lo == L[n].pos + 1 && L[f].hi == L[f].lo + 1
    ensures L[n].lo == L[n].pos
  {
    var f := L[n].kids.r;
    assert Slot(L, n, Left) && Slot(L, n, Right) && Balanced(L, n) && Balanced(L, f);
    assert Slot(L, f, Left) && Slot(L, f, Right) && Seat(L, ord, root, f);
    assert L[f].kids.l != null ==> Balanced(L, L[f].kids.l);
    assert L[f].kids.r != null ==> Balanced(L, L[f].kids.r);
  }
}
