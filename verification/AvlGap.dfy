/** Opening and closing a gap in the in-order sequence of a layout: what attaching a new leaf or
    dropping a node with at most one child does to every stretch. */
module AvlGap {
  import opened AvlLayout

  /** The position just before which the empty child slot `c` of `p` would insert. */
  function Gap(L: Layout, p: Node?, c: Side): int {
    if p == null || p !in L then 0 else L[p].From(c)
  }

  /** An empty child slot, or the root slot of an empty tree. */
  ghost predicate Open(L: Layout, root: Node?, p: Node?, c: Side) {
    if p == null then root == null else p in L && L[p].kids.Get(c) == null
  }

  function InsertAt<T>(s: seq<T>, i: int, x: T): seq<T>
    requires 0 <= i <= |s|
  {
    s[..i] + [x] + s[i..]
  }

  /** Two neighbours in the sequence cannot both end at the boundary between them: one is above the
      other. */
  lemma {:induction false} Neighbours(L: Layout, ord: seq<Node>, root: Node?, m: Node, g: int)
    requires Shaped(L, ord, root) && m in L && 0 <= L[m].lo < g < L[m].hi <= |ord|
    ensures ord[g] in L && ord[g - 1] in L && (L[ord[g]].lo < g || g < L[ord[g - 1]].hi)
    decreases L[m].hi - L[m].lo
  {
    assert Seat(L, ord, root, m) && Slot(L, m, Left) && Slot(L, m, Right);
    if g < L[m].pos {
      Neighbours(L, ord, root, L[m].kids.l, g);
    } else if L[m].pos + 1 < g {
      Neighbours(L, ord, root, L[m].kids.r, g);
    }
  }

  /** Each gap in the sequence belongs to one empty slot only. */
  lemma GapUnique(L: Layout, ord: seq<Node>, root: Node?, p: Node, c: Side, q: Node, e: Side)
    requires Shaped(L, ord, root) && p in L && q in L
    requires L[p].kids.Get(c) == null && L[q].kids.Get(e) == null && Gap(L, p, c) == Gap(L, q, e)
    ensures p == q && c == e
  {
    assert Seat(L, ord, root, p) && Seat(L, ord, root, q) && Slot(L, p, c) && Slot(L, q, e);
    var g := Gap(L, p, c);
    if c != e {
      Neighbours(L, ord, root, root, g) by {
        assert Seat(L, ord, root, root);
      }
    }
  }

  /** Every gap in the stretch of a node belongs to some empty slot below it. */
  lemma {:induction false} GapFound(L: Layout, ord: seq<Node>, root: Node?, m: Node, g: int) returns (p: Node, c: Side)
    requires Shaped(L, ord, root) && m in L && L[m].lo <= g <= L[m].hi
    ensures p in L && L[p].kids.Get(c) == null && Gap(L, p, c) == g
    decreases L[m].hi - L[m].lo
  {
    assert Seat(L, ord, root, m) && Slot(L, m, Left) && Slot(L, m, Right);
    p, c := m, if g <= L[m].pos then Left else Right;
    if L[p].kids.Get(c) != null {
      p, c := GapFound(L, ord, root, L[m].kids.Get(c), g);
    }
  }

  /** Open slots and gaps correspond one to one: every position at which a node can be put into the
      sequence has exactly one open slot. */
  lemma GapOneToOne(L: Layout, ord: seq<Node>, root: Node?, g: int) returns (p: Node?, c: Side)
    requires Shaped(L, ord, root) && 0 <= g <= |ord|
    ensures Open(L, root, p, c) && Gap(L, p, c) == g
    ensures forall q, e | Open(L, root, q, e) && Gap(L, q, e) == g :: p == q && (p != null ==> c == e)
  {
    p, c := null, Left;
    assert root == null ==> forall q | q in L :: Seat(L, ord, root, q);
    if root != null {
      assert Seat(L, ord, root, root);
      p, c := GapFound(L, ord, root, root, g);
      forall q, e | Open(L, root, q, e) && Gap(L, q, e) == g ensures p == q && c == e {
        GapUnique(L, ord, root, p, c, q, e);
      }
    }
  }

  /** How the stretch of a node moves when a position is opened at `i`. */
  function Opened(r: Rec, i: int): Rec {
    r.(lo := if i < r.lo then r.lo + 1 else r.lo,
       pos := if i <= r.pos then r.pos + 1 else r.pos,
       hi := if i <= r.hi then r.hi + 1 else r.hi)
  }

  /** The layout with the new leaf `node` in the open slot `c` of `p`. */
  function Inserted(L: Layout, node: Node, p: Node?, c: Side): (M: Layout)
    ensures M.Keys == L.Keys + {node}
  {
    var i := Gap(L, p, c);
    map x | x in L.Keys + {node} ::
      if x == node then Rec(Kids(null, null), p, c, 0, i, i, i + 1, 1)
      else if x == p then Opened(L[x], i).(kids := L[x].kids.Put(c, node))
      else Opened(L[x], i)
  }

  /** The links that attaching a leaf leaves at each node. */
  lemma InsertedLinks(L: Layout, node: Node, p: Node?, c: Side, x: Node)
    requires node !in L && x in Inserted(L, node, p, c)
    ensures var r := Inserted(L, node, p, c)[x];
      && (x == node ==> r.kids == Kids(null, null) && r.up == p && r.side == c && r.bal == 0)
      && (x != node ==> x in L && r.kids == (if x == p then L[x].kids.Put(c, node) else L[x].kids)
                        && r.up == L[x].up && r.side == L[x].side && r.bal == L[x].bal)
  {
  }

  lemma InsertedSlot(L: Layout, ord: seq<Node>, root: Node?, node: Node, p: Node?, c: Side, x: Node, e: Side)
    requires Shaped(L, ord, root) && node !in L && Open(L, root, p, c) && x in L
    ensures Slot(Inserted(L, node, p, c), x, e)
  {
    assert Seat(L, ord, root, x) && Slot(L, x, e);
    if p != null && L[x].kids.Get(e) == null && Gap(L, x, e) == Gap(L, p, c) {
      GapUnique(L, ord, root, x, e, p, c);
    }
    if p != null {
      assert Seat(L, ord, root, p) && Slot(L, p, c);
    }
  }

  lemma InsertedSeat(L: Layout, ord: seq<Node>, root: Node?, node: Node, p: Node?, c: Side, x: Node)
    requires Shaped(L, ord, root) && node !in L && Open(L, root, p, c) && x in L
    ensures 0 <= Gap(L, p, c) <= |ord|
    ensures Seat(Inserted(L, node, p, c), InsertAt(ord, Gap(L, p, c), node), if p == null then node else root, x)
  {
    assert Seat(L, ord, root, x);
    if p != null {
      assert Seat(L, ord, root, p) && Slot(L, p, c);
    }
  }

  /** The new leaf has its place, and every position is taken by the node it should be. */
  lemma InsertedPlaces(L: Layout, ord: seq<Node>, root: Node?, node: Node, p: Node?, c: Side)
    requires Shaped(L, ord, root) && node !in L && Open(L, root, p, c)
    ensures 0 <= Gap(L, p, c) <= |ord|
    ensures var M, s := Inserted(L, node, p, c), InsertAt(ord, Gap(L, p, c), node);
      && Seat(M, s, if p == null then node else root, node) && Slot(M, node, Left) && Slot(M, node, Right)
      && (forall q | 0 <= q < |s| :: s[q] in M && M[s[q]].pos == q)
      && var root' := if p == null then node else root; root' in M && M[root'].up == null
  {
    if p != null {
      assert Seat(L, ord, root, p) && Slot(L, p, c);
    }
    if root != null {
      assert Seat(L, ord, root, root);
    }
    var M, i, s := Inserted(L, node, p, c), Gap(L, p, c), InsertAt(ord, Gap(L, p, c), node);
    forall q | 0 <= q < |s| ensures s[q] in M && M[s[q]].pos == q {
      if q < i {
        assert s[q] == ord[q];
      } else if i < q {
        assert s[q] == ord[q - 1];
      }
    }
  }

  /** Attaching a leaf to an open slot puts it at the gap of that slot and keeps all the rest in
      order. */
  lemma InsertedShaped(L: Layout, ord: seq<Node>, root: Node?, node: Node, p: Node?, c: Side)
    requires Shaped(L, ord, root) && node !in L && Open(L, root, p, c)
    ensures 0 <= Gap(L, p, c) <= |ord|
    ensures Shaped(Inserted(L, node, p, c), InsertAt(ord, Gap(L, p, c), node), if p == null then node else root)
  {
    hide Inserted;
    hide InsertAt;
    InsertedPlaces(L, ord, root, node, p, c);
    var M, s, root' := Inserted(L, node, p, c), InsertAt(ord, Gap(L, p, c), node), if p == null then node else root;
    forall x | x in M ensures Seat(M, s, root', x) {
      if x != node {
        InsertedSeat(L, ord, root, node, p, c, x);
      }
    }
    forall x, e | x in M ensures Slot(M, x, e) {
      if x != node {
        InsertedSlot(L, ord, root, node, p, c, x, e);
      }
    }
  }

  /** A new leaf leaves only its parent out of balance, by one. */
  lemma InsertedOff(L: Layout, ord: seq<Node>, root: Node?, node: Node, p: Node?, c: Side)
    requires Shaped(L, ord, root) && node !in L && Open(L, root, p, c) && Off(L, null, Left, 0)
    ensures Off(Inserted(L, node, p, c), p, c, 1)
  {
    var M := Inserted(L, node, p, c);
    forall x | x in M && x != p ensures Balanced(M, x) {
      if x != node {
        assert Balanced(L, x) && Slot(L, x, Left) && Slot(L, x, Right);
      }
    }
    if p != null {
      assert Balanced(L, p) && Slot(L, p, c.Opp());
    }
  }
}
