/** The effect of avl_rotation on a layout: which subtrees hang where afterwards, and which heights
    and balances must be stored for the tree to be balanced again. */
module AvlRotation {
  import opened AvlLayout

  /** Moves the child of `node` on side `left` into the place of `node`, which becomes its child on
      the other side and takes over the subtree that was there.  Balances and heights stay. */
  function Single(L: Layout, node: Node, left: Side): (M: Layout)
    requires Has(L, node, left)
    ensures M.Keys == L.Keys && forall x | x in L :: M[x].pos == L[x].pos
  {
    var n := L[node];
    var child := n.kids.Get(left);
    var k := L[child];
    var cright := k.kids.Get(left.Opp());
    map x | x in L ::
      if x == node then
        n.(kids := n.kids.Put(left, cright), up := child, side := left.Opp(),
           lo := if left.Left? then k.pos + 1 else n.lo, hi := if left.Left? then n.hi else k.pos)
      else if x == child then
        k.(kids := k.kids.Put(left.Opp(), node), up := n.up, side := n.side, lo := n.lo, hi := n.hi)
      else if x == cright then L[x].(up := node, side := left)
      else if x == n.up then L[x].(kids := L[x].kids.Put(n.side, child))
      else L[x]
  }

  ghost predicate Has(L: Layout, n: Node, c: Side) {
    n in L && L[n].kids.Get(c) != null && L[n].kids.Get(c) in L
  }

  lemma Around(L: Layout, ord: seq<Node>, root: Node?, node: Node, left: Side)
    requires Shaped(L, ord, root) && Has(L, node, left)
    ensures var n := L[node]; var child := n.kids.Get(left); var k := L[child];
      && Seat(L, ord, root, node) && Slot(L, node, left) && Slot(L, node, left.Opp())
      && Seat(L, ord, root, child) && Slot(L, child, left) && Slot(L, child, left.Opp())
      && child != node && k.kids.Get(left.Opp()) !in {node, child}
      && n.up !in {node, child} && (n.up != null ==> n.up in L && n.up != k.kids.Get(left.Opp()))
  {
    var n := L[node]; var child := n.kids.Get(left); var k := L[child];
    assert Seat(L, ord, root, node) && Seat(L, ord, root, child) && Slot(L, child, left.Opp());
    if n.up != null {
      assert Slot(L, n.up, n.side) && Seat(L, ord, root, n.up);
    }
  }

  lemma SingleSlotNear(L: Layout, ord: seq<Node>, root: Node?, node: Node, left: Side, x: Node, c: Side)
    requires Shaped(L, ord, root) && Has(L, node, left)
    requires x == node || x == L[node].kids.Get(left)
    ensures Slot(Single(L, node, left), x, c)
  {
    Around(L, ord, root, node, left);
  }

  lemma SingleSlotFar(L: Layout, ord: seq<Node>, root: Node?, node: Node, left: Side, x: Node, c: Side)
    requires Shaped(L, ord, root) && Has(L, node, left) && x in L
    requires x != node && x != L[node].kids.Get(left)
    ensures Slot(Single(L, node, left), x, c)
  {
    Around(L, ord, root, node, left);
    assert Seat(L, ord, root, x) && Slot(L, x, c);
    hide Shaped;
    var M, n, k := Single(L, node, left), L[node], L[x].kids.Get(c);
    assert M[x].lo == L[x].lo && M[x].hi == L[x].hi;
    assert M[x].kids == if x == n.up then L[x].kids.Put(n.side, n.kids.Get(left)) else L[x].kids;
    assert k != null && k != node ==> M[k].up == x && M[k].side == c && M[k].lo == L[k].lo && M[k].hi == L[k].hi;
    assert M[n.kids.Get(left)].up == n.up && M[n.kids.Get(left)].side == n.side;
    assert M[n.kids.Get(left)].lo == n.lo && M[n.kids.Get(left)].hi == n.hi;
    hide Single;
  }

  lemma SingleSeat(L: Layout, ord: seq<Node>, root: Node?, node: Node, left: Side, x: Node)
    requires Shaped(L, ord, root) && Has(L, node, left) && x in L
    ensures Seat(Single(L, node, left), ord, if L[node].up == null then L[node].kids.Get(left) else root, x)
  {
    Around(L, ord, root, node, left);
    assert Seat(L, ord, root, x);
  }

  lemma SingleRoot(L: Layout, ord: seq<Node>, root: Node?, node: Node, left: Side)
    requires Shaped(L, ord, root) && Has(L, node, left)
    ensures var root' := if L[node].up == null then L[node].kids.Get(left) else root;
      root' in L && Single(L, node, left)[root'].up == null
  {
    Around(L, ord, root, node, left);
  }

  /** A single rotation keeps the tree and its in-order sequence; only the root may change. */
  lemma SingleShaped(L: Layout, ord: seq<Node>, root: Node?, node: Node, left: Side)
    requires Shaped(L, ord, root) && Has(L, node, left)
    ensures Shaped(Single(L, node, left), ord, if L[node].up == null then L[node].kids.Get(left) else root)
  {
    hide Single;
    var M := Single(L, node, left);
    var root' := if L[node].up == null then L[node].kids.Get(left) else root;
    forall x | x in L ensures Seat(M, ord, root', x) {
      SingleSeat(L, ord, root, node, left, x);
    }
    forall x, c | x in L ensures Slot(M, x, c) {
      if x == node || x == L[node].kids.Get(left) {
        SingleSlotNear(L, ord, root, node, left, x, c);
      } else {
        SingleSlotFar(L, ord, root, node, left, x, c);
      }
    }
    SingleRoot(L, ord, root, node, left);
  }

  /** Stores a balance and a height at one node. */
  function Rated(L: Layout, n: Node, bal: int, ht: nat): (M: Layout)
    requires n in L
    ensures M.Keys == L.Keys
  {
    L[n := L[n].(bal := bal, ht := ht)]
  }

  lemma RatedShaped(L: Layout, ord: seq<Node>, root: Node?, n: Node, bal: int, ht: nat)
    requires Shaped(L, ord, root) && n in L
    ensures Shaped(Rated(L, n, bal, ht), ord, root)
  {
    var M := Rated(L, n, bal, ht);
    forall x | x in M ensures Seat(M, ord, root, x) {
      assert Seat(L, ord, root, x);
    }
    forall x, c | x in M ensures Slot(M, x, c) {
      assert Slot(L, x, c);
    }
  }

  /** The balance and height of `x` depend on no more than its own record and its children's
      heights. */
  lemma LaggingSame(L: Layout, M: Layout, x: Node, c: Side, d: int)
    requires x in L && x in M && Lagging(L, x, c, d)
    requires M[x].kids == L[x].kids && M[x].bal == L[x].bal && M[x].ht == L[x].ht
    requires Ht(M, L[x].kids.l) == Ht(L, L[x].kids.l) && Ht(M, L[x].kids.r) == Ht(L, L[x].kids.r)
    ensures Lagging(M, x, c, d)
  {
  }

  lemma RatedBalanced(L: Layout, ord: seq<Node>, root: Node?, node: Node, bal: int, ht: nat, x: Node)
    requires Shaped(L, ord, root) && node in L && x in L && x != node && x != L[node].up && Balanced(L, x)
    ensures Balanced(Rated(L, node, bal, ht), x)
  {
    assert Slot(L, x, Left) && Slot(L, x, Right);
    hide Shaped;
    LaggingSame(L, Rated(L, node, bal, ht), x, Left, 0);
  }

  lemma RatedLag(L: Layout, ord: seq<Node>, root: Node?, node: Node, bal: int, ht: nat)
    requires Shaped(L, ord, root) && node in L && L[node].up in L && Balanced(L, L[node].up)
    ensures Lagging(Rated(L, node, bal, ht), L[node].up, L[node].side, ht - L[node].ht)
  {
    Above(L, ord, root, node);
    assert Slot(L, L[node].up, L[node].side.Opp());
    hide Shaped;
  }

  lemma RatedSelf(L: Layout, ord: seq<Node>, root: Node?, node: Node, c: Side, d: int, ht: nat)
    requires Shaped(L, ord, root) && node in L && Lagging(L, node, c, d)
    requires ht == 1 + Max(Ht(L, L[node].kids.l), Ht(L, L[node].kids.r))
    requires -1 <= L[node].bal + c.Lean(d) <= 1
    ensures Balanced(Rated(L, node, L[node].bal + c.Lean(d), ht), node)
  {
    Above(L, ord, root, node);
    assert Slot(L, node, Left) && Slot(L, node, Right);
    hide Shaped;
  }

  /** Storing the balance and height that a lagging node really has moves the lag to its parent. */
  lemma RatedOff(L: Layout, ord: seq<Node>, root: Node?, node: Node, c: Side, d: int, ht: nat)
    requires Shaped(L, ord, root) && node in L && Off(L, node, c, d)
    requires ht == 1 + Max(Ht(L, L[node].kids.l), Ht(L, L[node].kids.r))
    requires -1 <= L[node].bal + c.Lean(d) <= 1
    ensures Off(Rated(L, node, L[node].bal + c.Lean(d), ht), L[node].up, L[node].side, ht - L[node].ht)
  {
    var bal, p := L[node].bal + c.Lean(d), L[node].up;
    var M := Rated(L, node, bal, ht);
    Above(L, ord, root, node);
    RatedSelf(L, ord, root, node, c, d, ht);
    hide Shaped;
    hide Rated;
    forall x | x in M && x != p ensures Balanced(M, x) {
      if x != node {
        assert Balanced(L, x);
        RatedBalanced(L, ord, root, node, bal, ht, x);
      }
    }
    if p != null {
      assert Balanced(L, p);
      RatedLag(L, ord, root, node, bal, ht);
    }
  }

  /** A single rotation together with the balances and heights that avl_rotation stores. */
  function RotatedOnce(L: Layout, node: Node, left: Side): (M: Layout)
    requires Has(L, node, left)
    ensures M.Keys == L.Keys
    ensures forall x | x in L && x !in {node, L[node].kids.Get(left)}  ::
      M[x].ht == L[x].ht && M[x].lo == L[x].lo && M[x].hi == L[x].hi
  {
    var child := L[node].kids.Get(left);
    var k := L[child];
    var bal := k.bal - left.Weight();
    var nh := 1 + Max(Ht(L, k.kids.Get(left.Opp())), Ht(L, L[node].kids.Get(left.Opp())));
    Rated(Rated(Single(L, node, left), node, -bal, nh), child, bal, 1 + Max(Ht(L, k.kids.Get(left)), nh))
  }

  lemma RotatedOnceShaped(L: Layout, ord: seq<Node>, root: Node?, node: Node, left: Side)
    requires Shaped(L, ord, root) && Has(L, node, left)
    ensures Shaped(RotatedOnce(L, node, left), ord, if L[node].up == null then L[node].kids.Get(left) else root)
  {
    hide Single;
    hide Shaped;
    hide Rated;
    var child := L[node].kids.Get(left);
    var root' := if L[node].up == null then child else root;
    SingleShaped(L, ord, root, node, left);
    var bal := L[child].bal - left.Weight();
    var nh := 1 + Max(Ht(L, L[child].kids.Get(left.Opp())), Ht(L, L[node].kids.Get(left.Opp())));
    var S := Single(L, node, left);
    RatedShaped(S, ord, root', node, -bal, nh);
    RatedShaped(Rated(S, node, -bal, nh), ord, root', child, bal, 1 + Max(Ht(L, L[child].kids.Get(left)), nh));
  }

  /** The links and balance that a single rotation leaves at each node. */
  lemma RotatedOnceLinks(L: Layout, ord: seq<Node>, root: Node?, node: Node, left: Side, x: Node)
    requires Shaped(L, ord, root) && Has(L, node, left) && x in L
    ensures var M := RotatedOnce(L, node, left); var child := L[node].kids.Get(left);
      var cright := L[child].kids.Get(left.Opp());
      && M[x].kids == (if x == node then L[x].kids.Put(left, cright)
                       else if x == child then L[x].kids.Put(left.Opp(), node)
                       else if x == L[node].up then L[x].kids.Put(L[node].side, child) else L[x].kids)
      && M[x].up == (if x == node then child else if x == child then L[node].up
                     else if x == cright then node else L[x].up)
      && M[x].side == (if x == node then left.Opp() else if x == child then L[node].side
                       else if x == cright then left else L[x].side)
      && M[child].bal == L[child].bal - left.Weight() && M[node].bal == -M[child].bal
      && (x != node && x != child ==> M[x].bal == L[x].bal)
  {
    Around(L, ord, root, node, left);
  }

  lemma RotatedOnceFar(L: Layout, ord: seq<Node>, root: Node?, node: Node, left: Side, x: Node)
    requires Shaped(L, ord, root) && Has(L, node, left) && x in L && Balanced(L, x)
    requires x != node && x != L[node].kids.Get(left) && x != L[node].up
    ensures Balanced(RotatedOnce(L, node, left), x)
  {
    Around(L, ord, root, node, left);
    assert Slot(L, x, Left) && Slot(L, x, Right);
    RotatedOnceLinks(L, ord, root, node, left, x);
    hide RotatedOnce;
    hide Shaped;
    LaggingSame(L, RotatedOnce(L, node, left), x, Left, 0);
  }

  lemma RotatedOnceUp(L: Layout, ord: seq<Node>, root: Node?, node: Node, left: Side, x: Node)
    requires Shaped(L, ord, root) && Has(L, node, left) && x == L[node].up && x in L && Balanced(L, x)
    ensures var M := RotatedOnce(L, node, left);
      Lagging(M, x, L[node].side, M[L[node].kids.Get(left)].ht - L[node].ht)
  {
    Around(L, ord, root, node, left);
    assert Slot(L, x, L[node].side) && Slot(L, x, L[node].side.Opp());
    RotatedOnceLinks(L, ord, root, node, left, x);
    hide RotatedOnce;
    hide Shaped;
  }

  lemma RotatedOnceNear(L: Layout, ord: seq<Node>, root: Node?, node: Node, left: Side)
    requires Shaped(L, ord, root) && Has(L, node, left)
    requires var child := L[node].kids.Get(left);
      Balanced(L, child) && L[child].bal != -left.Weight() && L[child].ht == Ht(L, L[node].kids.Get(left.Opp())) + 2
    ensures var M := RotatedOnce(L, node, left); var child := L[node].kids.Get(left);
      Balanced(M, node) && Balanced(M, child) && M[child].ht == L[child].ht + (if M[child].bal == 0 then 0 else 1)
  {
    Around(L, ord, root, node, left);
  }

  /** After a single rotation of a balanced tall side, every node is balanced again except that the
      parent sees its subtree change height. */
  lemma RotatedOnceOff(L: Layout, ord: seq<Node>, root: Node?, node: Node, left: Side, w: Side, d: int)
    requires Shaped(L, ord, root) && Has(L, node, left) && Off(L, node, w, d)
    requires var child := L[node].kids.Get(left);
      L[child].bal != -left.Weight() && L[child].ht == Ht(L, L[node].kids.Get(left.Opp())) + 2
    ensures var M := RotatedOnce(L, node, left); var child := L[node].kids.Get(left);
      && M[child].ht == L[child].ht + (if M[child].bal == 0 then 0 else 1)
      && Off(M, L[node].up, L[node].side, M[child].ht - L[node].ht)
  {
    hide RotatedOnce;
    var M := RotatedOnce(L, node, left);
    Around(L, ord, root, node, left);
    assert Balanced(L, L[node].kids.Get(left));
    RotatedOnceNear(L, ord, root, node, left);
    forall x | x in M && x != L[node].up ensures Balanced(M, x) {
      if x != node && x != L[node].kids.Get(left) {
        RotatedOnceFar(L, ord, root, node, left, x);
      }
    }
    if L[node].up != null {
      RotatedOnceUp(L, ord, root, node, left, L[node].up);
    }
  }

  /** Moves the inner grandchild of `node` on side `left` into the place of `node`, above both the
      child and `node`, which share its two subtrees. */
  function Double(L: Layout, node: Node, left: Side): (M: Layout)
    requires Has(L, node, left) && Has(L, L[node].kids.Get(left), left.Opp())
    ensures M.Keys == L.Keys && forall x | x in L :: M[x].pos == L[x].pos
  {
    var n := L[node];
    var child := n.kids.Get(left);
    var k := L[child];
    var gchild := k.kids.Get(left.Opp());
    var g := L[gchild];
    var gleft, gright := g.kids.Get(left), g.kids.Get(left.Opp());
    map x | x in L ::
      if x == gchild then
        g.(kids := g.kids.Put(left, child).Put(left.Opp(), node), up := n.up, side := n.side, lo := n.lo, hi := n.hi)
      else if x == node then
        n.(kids := n.kids.Put(left, gright), up := gchild, side := left.Opp(),
           lo := if left.Left? then g.pos + 1 else n.lo, hi := if left.Left? then n.hi else g.pos)
      else if x == child then
        k.(kids := k.kids.Put(left.Opp(), gleft), up := gchild, side := left,
           lo := if left.Left? then k.lo else g.pos + 1, hi := if left.Left? then g.pos else k.hi)
      else if x == gright then L[x].(up := node, side := left)
      else if x == gleft then L[x].(up := child, side := left.Opp())
      else if x == n.up then L[x].(kids := L[x].kids.Put(n.side, gchild))
      else L[x]
  }

  /** The three nodes of a double rotation and the four around them are different nodes. */
  lemma AroundTwo(L: Layout, ord: seq<Node>, root: Node?, node: Node, left: Side)
    requires Shaped(L, ord, root) && Has(L, node, left) && Has(L, L[node].kids.Get(left), left.Opp())
    ensures var n := L[node]; var child := n.kids.Get(left);
      var gchild := L[child].kids.Get(left.Opp()); var g := L[gchild];
      && child != node && gchild !in {node, child}
      && g.kids.l !in {node, child, gchild} && g.kids.r !in {node, child, gchild}
      && (g.kids.l != null ==> g.kids.l in L && g.kids.l != g.kids.r) && (g.kids.r != null ==> g.kids.r in L)
      && n.up !in {node, child, gchild} && (n.up != null ==> n.up in L && n.up != g.kids.l && n.up != g.kids.r)
      && L[child].up == node && L[child].side == left && g.up == child && g.side == left.Opp()
  {
    var n := L[node]; var child := n.kids.Get(left); var gchild := L[child].kids.Get(left.Opp());
    Around(L, ord, root, node, left);
    Around(L, ord, root, child, left.Opp());
    assert Slot(L, gchild, left) && Slot(L, gchild, left.Opp());
    if n.up != null {
      assert Slot(L, n.up, n.side) && Seat(L, ord, root, n.up);
    }
  }

  lemma DoubleIsTwoSingles(L: Layout, ord: seq<Node>, root: Node?, node: Node, left: Side)
    requires Shaped(L, ord, root) && Has(L, node, left) && Has(L, L[node].kids.Get(left), left.Opp())
    ensures var S := Single(L, L[node].kids.Get(left), left.Opp());
      && Has(S, node, left) && S[node].kids.Get(left) == L[L[node].kids.Get(left)].kids.Get(left.Opp())
      && S[node].up == L[node].up
      && Double(L, node, left) == Single(S, node, left)
  {
    AroundTwo(L, ord, root, node, left);
  }

  lemma DoubleShaped(L: Layout, ord: seq<Node>, root: Node?, node: Node, left: Side)
    requires Shaped(L, ord, root) && Has(L, node, left) && Has(L, L[node].kids.Get(left), left.Opp())
    ensures var gchild := L[L[node].kids.Get(left)].kids.Get(left.Opp());
      Shaped(Double(L, node, left), ord, if L[node].up == null then gchild else root)
  {
    hide Single;
    hide Double;
    var child := L[node].kids.Get(left);
    Around(L, ord, root, node, left);
    SingleShaped(L, ord, root, child, left.Opp());
    DoubleIsTwoSingles(L, ord, root, node, left);
    SingleShaped(Single(L, child, left.Opp()), ord, root, node, left);
  }

  /** A double rotation together with the balances and heights that avl_rotation stores. */
  function RotatedTwice(L: Layout, node: Node, left: Side): (M: Layout)
    requires Has(L, node, left) && Has(L, L[node].kids.Get(left), left.Opp())
    ensures M.Keys == L.Keys
    ensures var child := L[node].kids.Get(left);
      forall x | x in L && x !in {node, child, L[child].kids.Get(left.Opp())} ::
        M[x].ht == L[x].ht && M[x].lo == L[x].lo && M[x].hi == L[x].hi
  {
    var child := L[node].kids.Get(left);
    var gchild := L[child].kids.Get(left.Opp());
    var w, bal := left.Weight(), L[gchild].bal;
    var ch := 1 + Max(Ht(L, L[child].kids.Get(left)), Ht(L, L[gchild].kids.Get(left)));
    var nh := 1 + Max(Ht(L, L[gchild].kids.Get(left.Opp())), Ht(L, L[node].kids.Get(left.Opp())));
    Rated(Rated(Rated(Double(L, node, left), child, if bal == -w then w else 0, ch),
                node, if bal == w then -w else 0, nh),
          gchild, 0, 1 + Max(ch, nh))
  }

  lemma RotatedTwiceShaped(L: Layout, ord: seq<Node>, root: Node?, node: Node, left: Side)
    requires Shaped(L, ord, root) && Has(L, node, left) && Has(L, L[node].kids.Get(left), left.Opp())
    ensures var gchild := L[L[node].kids.Get(left)].kids.Get(left.Opp());
      Shaped(RotatedTwice(L, node, left), ord, if L[node].up == null then gchild else root)
  {
    hide Double;
    hide Shaped;
    hide Rated;
    var child := L[node].kids.Get(left);
    var gchild := L[child].kids.Get(left.Opp());
    var root' := if L[node].up == null then gchild else root;
    var w, bal := left.Weight(), L[gchild].bal;
    var ch := 1 + Max(Ht(L, L[child].kids.Get(left)), Ht(L, L[gchild].kids.Get(left)));
    var nh := 1 + Max(Ht(L, L[gchild].kids.Get(left.Opp())), Ht(L, L[node].kids.Get(left.Opp())));
    DoubleShaped(L, ord, root, node, left);
    var S := Double(L, node, left);
    var S1 := Rated(S, child, if bal == -w then w else 0, ch);
    var S2 := Rated(S1, node, if bal == w then -w else 0, nh);
    RatedShaped(S, ord, root', child, if bal == -w then w else 0, ch);
    RatedShaped(S1, ord, root', node, if bal == w then -w else 0, nh);
    RatedShaped(S2, ord, root', gchild, 0, 1 + Max(ch, nh));
  }

  /** The links and balance that a double rotation leaves at each node. */
  lemma RotatedTwiceLinks(L: Layout, ord: seq<Node>, root: Node?, node: Node, left: Side, x: Node)
    requires Shaped(L, ord, root) && Has(L, node, left) && Has(L, L[node].kids.Get(left), left.Opp()) && x in L
    ensures var M := RotatedTwice(L, node, left); var child := L[node].kids.Get(left);
      var gchild := L[child].kids.Get(left.Opp());
      var gleft, gright := L[gchild].kids.Get(left), L[gchild].kids.Get(left.Opp());
      var w, bal := left.Weight(), L[gchild].bal;
      && M[x].kids == (if x == gchild then Kids(null, null).Put(left, child).Put(left.Opp(), node)
                       else if x == node then L[x].kids.Put(left, gright)
                       else if x == child then L[x].kids.Put(left.Opp(), gleft)
                       else if x == L[node].up then L[x].kids.Put(L[node].side, gchild) else L[x].kids)
      && M[x].up == (if x == gchild then L[node].up else if x == node || x == child then gchild
                     else if x == gright then node else if x == gleft then child else L[x].up)
      && M[x].side == (if x == gchild then L[node].side else if x == node || x == gleft then left.Opp()
                       else if x == child || x == gright then left else L[x].side)
      && M[x].bal == (if x == gchild then 0 else if x == node then (if bal == w then -w else 0)
                      else if x == child then (if bal == -w then w else 0) else L[x].bal)
  {
    AroundTwo(L, ord, root, node, left);
  }

  lemma RotatedTwiceFar(L: Layout, ord: seq<Node>, root: Node?, node: Node, left: Side, x: Node)
    requires Shaped(L, ord, root) && Has(L, node, left) && Has(L, L[node].kids.Get(left), left.Opp())
    requires x in L && Balanced(L, x) && x != node && x != L[node].up
    requires x != L[node].kids.Get(left) && x != L[L[node].kids.Get(left)].kids.Get(left.Opp())
    ensures Balanced(RotatedTwice(L, node, left), x)
  {
    AroundTwo(L, ord, root, node, left);
    assert Slot(L, x, Left) && Slot(L, x, Right);
    RotatedTwiceLinks(L, ord, root, node, left, x);
    hide RotatedTwice;
    hide Shaped;
    LaggingSame(L, RotatedTwice(L, node, left), x, Left, 0);
  }

  /** What a double rotation leaves at and around the three nodes. */
  lemma RotatedTwiceView(L: Layout, ord: seq<Node>, root: Node?, node: Node, left: Side)
    requires Shaped(L, ord, root) && Has(L, node, left) && Has(L, L[node].kids.Get(left), left.Opp())
    ensures var M := RotatedTwice(L, node, left); var child := L[node].kids.Get(left);
      var gchild := L[child].kids.Get(left.Opp()); var w, bal := left.Weight(), L[gchild].bal;
      && M[gchild].kids.Get(left) == child && M[gchild].kids.Get(left.Opp()) == node
      && M[child].kids == L[child].kids.Put(left.Opp(), L[gchild].kids.Get(left))
      && M[node].kids == L[node].kids.Put(left, L[gchild].kids.Get(left.Opp()))
      && M[gchild].bal == 0 && M[gchild].ht == 1 + Max(M[child].ht, M[node].ht)
      && M[child].ht == 1 + Max(Ht(L, L[child].kids.Get(left)), Ht(L, L[gchild].kids.Get(left)))
      && M[node].ht == 1 + Max(Ht(L, L[gchild].kids.Get(left.Opp())), Ht(L, L[node].kids.Get(left.Opp())))
      && M[child].bal == (if bal == -w then w else 0) && M[node].bal == (if bal == w then -w else 0)
  {
    AroundTwo(L, ord, root, node, left);
  }

  lemma RotatedTwiceUp(L: Layout, ord: seq<Node>, root: Node?, node: Node, left: Side, x: Node)
    requires Shaped(L, ord, root) && Has(L, node, left) && Has(L, L[node].kids.Get(left), left.Opp())
    requires x == L[node].up && x in L && Balanced(L, x)
    ensures var M := RotatedTwice(L, node, left);
      Lagging(M, x, L[node].side, M[L[L[node].kids.Get(left)].kids.Get(left.Opp())].ht - L[node].ht)
  {
    AroundTwo(L, ord, root, node, left);
    assert Slot(L, x, L[node].side.Opp()) && Seat(L, ord, root, node);
    var M, gchild, c := RotatedTwice(L, node, left), L[L[node].kids.Get(left)].kids.Get(left.Opp()), L[node].side;
    assert M[x] == L[x].(kids := L[x].kids.Put(c, gchild));
    assert Ht(M, L[x].kids.Get(c.Opp())) == Ht(L, L[x].kids.Get(c.Opp()));
    RotatedTwiceView(L, ord, root, node, left);
    hide RotatedTwice;
  }

  lemma RotatedTwiceNear(L: Layout, ord: seq<Node>, root: Node?, node: Node, left: Side)
    requires Shaped(L, ord, root) && Has(L, node, left) && Has(L, L[node].kids.Get(left), left.Opp())
    requires var child := L[node].kids.Get(left); var gchild := L[child].kids.Get(left.Opp());
      Balanced(L, child) && Balanced(L, gchild)
      && L[child].bal == -left.Weight() && L[child].ht == Ht(L, L[node].kids.Get(left.Opp())) + 2
    ensures var M := RotatedTwice(L, node, left); var child := L[node].kids.Get(left);
      && Balanced(M, node) && Balanced(M, child) && Balanced(M, L[child].kids.Get(left.Opp()))
      && M[L[child].kids.Get(left.Opp())].ht == L[child].ht
  {
    hide RotatedTwice;
    AroundTwo(L, ord, root, node, left);
    Around(L, ord, root, node, left);
    RotatedTwiceView(L, ord, root, node, left);
  }

  /** After a double rotation every node is balanced again except that the parent sees its subtree
      change height. */
  lemma RotatedTwiceOff(L: Layout, ord: seq<Node>, root: Node?, node: Node, left: Side, w: Side, d: int)
    requires Shaped(L, ord, root) && Has(L, node, left) && Has(L, L[node].kids.Get(left), left.Opp())
    requires Off(L, node, w, d)
    requires var child := L[node].kids.Get(left);
      L[child].bal == -left.Weight() && L[child].ht == Ht(L, L[node].kids.Get(left.Opp())) + 2
    ensures Off(RotatedTwice(L, node, left), L[node].up, L[node].side, L[L[node].kids.Get(left)].ht - L[node].ht)
  {
    hide RotatedTwice;
    var M := RotatedTwice(L, node, left);
    var child := L[node].kids.Get(left);
    AroundTwo(L, ord, root, node, left);
    assert Balanced(L, child) && Balanced(L, L[child].kids.Get(left.Opp()));
    RotatedTwiceNear(L, ord, root, node, left);
    forall x | x in M && x != L[node].up ensures Balanced(M, x) {
      if x != node && x != child && x != L[child].kids.Get(left.Opp()) {
        RotatedTwiceFar(L, ord, root, node, left, x);
      }
    }
    if L[node].up != null {
      RotatedTwiceUp(L, ord, root, node, left, L[node].up);
    }
  }
}
