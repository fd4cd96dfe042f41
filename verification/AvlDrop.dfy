/** Taking a node out of a layout: first by renaming it into the place of a neighbour that has at
    most one child, then by closing the gap it leaves. */
module AvlDrop {
  import opened AvlLayout
  import opened AvlRotation

  function RemoveAt<T>(s: seq<T>, i: int): seq<T>
    requires 0 <= i < |s|
  {
    s[..i] + s[i + 1..]
  }

  /** How the stretch of a node moves when position `d` is closed. */
  function Closed(r: Rec, d: int): Rec {
    r.(lo := if d < r.lo then r.lo - 1 else r.lo,
       pos := if d < r.pos then r.pos - 1 else r.pos,
       hi := if d < r.hi then r.hi - 1 else r.hi)
  }

  /** The only child of a node that has at most one. */
  function OnlyKid(r: Rec): Node? {
    if r.kids.l != null then r.kids.l else r.kids.r
  }

  /** The layout in which the only child of `x`, if any, has taken its place. */
  function Removed(L: Layout, x: Node): (M: Layout)
    requires x in L
    ensures M.Keys == L.Keys - {x}
    ensures forall y | y in M :: var m, r := M[y], Closed(L[y], L[x].pos);
      m.lo == r.lo && m.pos == r.pos && m.hi == r.hi && m.ht == r.ht && m.bal == r.bal
  {
    var r := L[x];
    var k := OnlyKid(r);
    map y | y in L.Keys - {x} ::
      if y == k then Closed(L[y], r.pos).(up := r.up, side := r.side)
      else if y == r.up then Closed(L[y], r.pos).(kids := L[y].kids.Put(r.side, k))
      else Closed(L[y], r.pos)
  }

  ghost predicate Half(L: Layout, x: Node) {
    x in L && (L[x].kids.l == null || L[x].kids.r == null)
  }

  /** A node with at most one child, its child and its parent. */
  lemma Lone(L: Layout, ord: seq<Node>, root: Node?, x: Node)
    requires Shaped(L, ord, root) && Half(L, x)
    ensures var r := L[x]; var k := OnlyKid(r);
      && 0 <= r.lo <= r.pos < r.hi <= |ord| && ord[r.pos] == x
      && (k == null ==> r.lo == r.pos && r.hi == r.pos + 1)
      && (k != null ==>
           && k in L && k != x && L[k].up == x && r.kids.Get(L[k].side) == k
           && Closed(L[k], r.pos).lo == Closed(r, r.pos).lo && Closed(L[k], r.pos).hi == Closed(r, r.pos).hi)
      && (if r.up == null then x == root && r.lo == 0 && r.hi == |ord|
          else r.up in L && r.up != x && r.up != k && L[r.up].kids.Get(r.side) == x)
  {
    assert Seat(L, ord, root, x) && Slot(L, x, Left) && Slot(L, x, Right);
    if OnlyKid(L[x]) != null {
      assert Seat(L, ord, root, OnlyKid(L[x]));
    }
    Above(L, ord, root, x);
  }

  /** The links that letting the only child take the place of `x` leaves at each node. */
  lemma RemovedLinks(L: Layout, ord: seq<Node>, root: Node?, x: Node, y: Node)
    requires Shaped(L, ord, root) && Half(L, x) && y in Removed(L, x)
    ensures var r := Removed(L, x)[y]; var k := OnlyKid(L[x]);
      && r.kids == (if y == L[x].up then L[y].kids.Put(L[x].side, k) else L[y].kids)
      && r.up == (if y == k then L[x].up else L[y].up)
      && r.side == (if y == k then L[x].side else L[y].side)
      && r.bal == L[y].bal
  {
    Lone(L, ord, root, x);
  }

  /** The slot that held `x` holds its only child. */
  lemma RemovedSlotUp(L: Layout, ord: seq<Node>, root: Node?, x: Node)
    requires Shaped(L, ord, root) && Half(L, x) && L[x].up != null
    ensures L[x].up in L && L[x].up != x && Slot(Removed(L, x), L[x].up, L[x].side)
  {
    Lone(L, ord, root, x);
    assert Slot(L, L[x].up, L[x].side);
    assert Seat(L, ord, root, L[x].up);
    hide Shaped;
  }

  lemma RemovedSlot(L: Layout, ord: seq<Node>, root: Node?, x: Node, y: Node, c: Side)
    requires Shaped(L, ord, root) && Half(L, x) && y in L && y != x && (y != L[x].up || c != L[x].side)
    ensures Slot(Removed(L, x), y, c)
  {
    Lone(L, ord, root, x);
    assert Seat(L, ord, root, y) && Slot(L, y, c);
    var k := L[y].kids.Get(c);
    RemovedLinks(L, ord, root, x, y);
    if k != null {
      RemovedLinks(L, ord, root, x, k);
    }
    hide Shaped;
    hide Removed;
  }

  lemma RemovedSeat(L: Layout, ord: seq<Node>, root: Node?, x: Node, y: Node)
    requires Shaped(L, ord, root) && Half(L, x) && y in L && y != x
    ensures 0 <= L[x].pos < |ord|
    ensures Seat(Removed(L, x), RemoveAt(ord, L[x].pos), if L[x].up == null then OnlyKid(L[x]) else root, y)
  {
    Lone(L, ord, root, x);
    assert Seat(L, ord, root, y);
    hide Shaped;
    var M, d, s := Removed(L, x), L[x].pos, RemoveAt(ord, L[x].pos);
    assert s[M[y].pos] == y by {
      assert L[y].pos != d;
      assert M[y].pos == Closed(L[y], d).pos;
    }
  }

  lemma RemovedPlaces(L: Layout, ord: seq<Node>, root: Node?, x: Node)
    requires Shaped(L, ord, root) && Half(L, x)
    ensures 0 <= L[x].pos < |ord|
    ensures var M, s := Removed(L, x), RemoveAt(ord, L[x].pos);
      var root' := if L[x].up == null then OnlyKid(L[x]) else root;
      && (forall q | 0 <= q < |s| :: s[q] in M && M[s[q]].pos == q)
      && if root' == null then s == [] else root' in M && M[root'].up == null
  {
    assert Seat(L, ord, root, x) && Slot(L, x, Left) && Slot(L, x, Right);
    Above(L, ord, root, x);
    var M, d, s := Removed(L, x), L[x].pos, RemoveAt(ord, L[x].pos);
    forall q | 0 <= q < |s| ensures s[q] in M && M[s[q]].pos == q {
      assert s[q] == if q < d then ord[q] else ord[q + 1];
    }
  }

  /** Letting the only child take the place of `x` removes exactly `x` from the sequence. */
  lemma RemovedShaped(L: Layout, ord: seq<Node>, root: Node?, x: Node)
    requires Shaped(L, ord, root) && Half(L, x)
    ensures 0 <= L[x].pos < |ord|
    ensures Shaped(Removed(L, x), RemoveAt(ord, L[x].pos), if L[x].up == null then OnlyKid(L[x]) else root)
  {
    hide Removed;
    hide RemoveAt;
    RemovedPlaces(L, ord, root, x);
    var M, s, root' := Removed(L, x), RemoveAt(ord, L[x].pos), if L[x].up == null then OnlyKid(L[x]) else root;
    forall y | y in M ensures Seat(M, s, root', y) {
      RemovedSeat(L, ord, root, x, y);
    }
    forall y, c | y in M ensures Slot(M, y, c) {
      if y == L[x].up && c == L[x].side {
        RemovedSlotUp(L, ord, root, x);
      } else {
        RemovedSlot(L, ord, root, x, y, c);
      }
    }
  }

  lemma RemovedBalanced(L: Layout, ord: seq<Node>, root: Node?, x: Node, y: Node)
    requires Shaped(L, ord, root) && Half(L, x) && y in L && y != x && y != L[x].up && Balanced(L, y)
    ensures Balanced(Removed(L, x), y)
  {
    assert Slot(L, y, Left) && Slot(L, y, Right);
    Lone(L, ord, root, x);
    RemovedLinks(L, ord, root, x, y);
    hide Removed;
    hide Shaped;
    LaggingSame(L, Removed(L, x), y, Left, 0);
  }

  lemma RemovedLag(L: Layout, ord: seq<Node>, root: Node?, x: Node)
    requires Shaped(L, ord, root) && Half(L, x) && L[x].up != null && L[x].up in L && L[x].up != x
    requires Balanced(L, x) && Balanced(L, L[x].up)
    ensures Lagging(Removed(L, x), L[x].up, L[x].side, -1)
  {
    assert Slot(L, L[x].up, L[x].side.Opp());
    Lone(L, ord, root, x);
    RemovedLinks(L, ord, root, x, L[x].up);
    hide Removed;
    hide Shaped;
  }

  /** Only the parent of the removed node is out of balance afterwards, by one. */
  lemma RemovedOff(L: Layout, ord: seq<Node>, root: Node?, x: Node)
    requires Shaped(L, ord, root) && Half(L, x) && Off(L, null, Left, 0)
    ensures Off(Removed(L, x), L[x].up, L[x].side, -1)
  {
    hide Removed;
    hide Shaped;
    var M, p := Removed(L, x), L[x].up;
    assert Balanced(L, x);
    forall y | y in M && y != p ensures Balanced(M, y) {
      assert Balanced(L, y);
      RemovedBalanced(L, ord, root, x, y);
    }
    if p != null {
      Lone(L, ord, root, x);
      assert Balanced(L, p);
      RemovedLag(L, ord, root, x);
    }
  }

  /** The renaming of avl_remove: `node` stands where `del` was, `tmp` where `node` was. */
  function Ren(y: Node?, del: Node, node: Node, tmp: Node): Node? {
    if y == del then node else if y == node then tmp else y
  }

  function RenRec(r: Rec, del: Node, node: Node, tmp: Node): Rec {
    r.(kids := Kids(Ren(r.kids.l, del, node, tmp), Ren(r.kids.r, del, node, tmp)), up := Ren(r.up, del, node, tmp))
  }

  function Renamed(L: Layout, del: Node, node: Node, tmp: Node): (M: Layout)
    requires del in L && node in L && tmp !in L && del != node
    ensures M.Keys == L.Keys - {del} + {tmp}
  {
    map y | y in L.Keys - {del} + {tmp} ::
      RenRec(if y == node then L[del] else if y == tmp then L[node] else L[y], del, node, tmp)
  }

  function RenSeq(L: Layout, ord: seq<Node>, del: Node, node: Node, tmp: Node): seq<Node>
    requires del in L && node in L && 0 <= L[del].pos < |ord| && 0 <= L[node].pos < |ord|
  {
    ord[L[del].pos := node][L[node].pos := tmp]
  }

  /** The node that `y` is a new name for. */
  function Was(y: Node, del: Node, node: Node, tmp: Node): Node {
    if y == node then del else if y == tmp then node else y
  }

  lemma RenamedSeat(L: Layout, ord: seq<Node>, root: Node?, del: Node, node: Node, tmp: Node, y: Node)
    requires Shaped(L, ord, root) && del in L && node in L && tmp !in L && del != node
    requires y in Renamed(L, del, node, tmp)
    ensures 0 <= L[del].pos < |ord| && 0 <= L[node].pos < |ord|
    ensures Seat(Renamed(L, del, node, tmp), RenSeq(L, ord, del, node, tmp), Ren(root, del, node, tmp), y)
  {
    assert Seat(L, ord, root, del) && Seat(L, ord, root, node) && Seat(L, ord, root, Was(y, del, node, tmp));
    hide Shaped;
  }

  lemma RenamedSlot(L: Layout, ord: seq<Node>, root: Node?, del: Node, node: Node, tmp: Node, y: Node, c: Side)
    requires Shaped(L, ord, root) && del in L && node in L && tmp !in L && del != node
    requires y in Renamed(L, del, node, tmp)
    ensures Slot(Renamed(L, del, node, tmp), y, c)
  {
    assert Slot(L, Was(y, del, node, tmp), c);
    hide Shaped;
  }

  /** Renaming keeps the tree; in the sequence, `node` and `tmp` stand where `del` and `node` did. */
  lemma RenamedShaped(L: Layout, ord: seq<Node>, root: Node?, del: Node, node: Node, tmp: Node)
    requires Shaped(L, ord, root) && del in L && node in L && tmp !in L && del != node
    ensures 0 <= L[del].pos < |ord| && 0 <= L[node].pos < |ord|
    ensures Shaped(Renamed(L, del, node, tmp), RenSeq(L, ord, del, node, tmp), Ren(root, del, node, tmp))
  {
    assert Seat(L, ord, root, del) && Seat(L, ord, root, node);
    var M, s, root' := Renamed(L, del, node, tmp), RenSeq(L, ord, del, node, tmp), Ren(root, del, node, tmp);
    forall q | 0 <= q < |s| ensures s[q] in M && M[s[q]].pos == q {
      assert ord[q] in L && L[ord[q]].pos == q;
    }
    hide Renamed;
    forall y | y in M ensures Seat(M, s, root', y) {
      RenamedSeat(L, ord, root, del, node, tmp, y);
    }
    forall y, c | y in M ensures Slot(M, y, c) {
      RenamedSlot(L, ord, root, del, node, tmp, y, c);
    }
  }

  lemma RenamedOff(L: Layout, ord: seq<Node>, root: Node?, del: Node, node: Node, tmp: Node)
    requires Shaped(L, ord, root) && del in L && node in L && tmp !in L && del != node && Off(L, null, Left, 0)
    ensures Off(Renamed(L, del, node, tmp), null, Left, 0)
  {
    var M := Renamed(L, del, node, tmp);
    forall y | y in M ensures Balanced(M, y) {
      var x := Was(y, del, node, tmp);
      assert Balanced(L, x) && Slot(L, x, Left) && Slot(L, x, Right);
    }
  }

  /** `node` is the neighbour of `del` on side `left`: down one step and then all the way to the
      other side. */
  ghost predicate Neighbour(L: Layout, del: Node, node: Node, left: Side) {
    && del in L && node in L && Has(L, del, left) && Has(L, del, left.Opp()) && L[node].kids.Get(left.Opp()) == null
    && L[node].pos == L[del].pos + left.Weight()
  }

  /** The end of the subtree on side `left` is the neighbour on that side. */
  lemma NeighbourFound(L: Layout, ord: seq<Node>, root: Node?, del: Node, node: Node, left: Side)
    requires Shaped(L, ord, root) && Has(L, del, left) && Has(L, del, left.Opp())
    requires node in L && L[node].kids.Get(left.Opp()) == null
    requires var k := L[L[del].kids.Get(left)]; L[node].pos == if left.Left? then k.hi - 1 else k.lo
    ensures Neighbour(L, del, node, left)
  {
    assert Slot(L, del, left);
  }

  /** Dropping the placeholder from the renamed sequence drops `del` from the old one. */
  lemma RenamedRemoved(L: Layout, ord: seq<Node>, root: Node?, del: Node, node: Node, tmp: Node, left: Side)
    requires Shaped(L, ord, root) && Neighbour(L, del, node, left) && tmp !in L && del != node
    ensures 0 <= L[del].pos < |ord| && 0 <= L[node].pos < |ord|
    ensures var M := Renamed(L, del, node, tmp);
      && Half(M, tmp) && M[tmp].pos == L[node].pos
      && RemoveAt(RenSeq(L, ord, del, node, tmp), L[node].pos) == RemoveAt(ord, L[del].pos)
  {
    assert Seat(L, ord, root, del) && Seat(L, ord, root, node);
  }

  /** The nodes around `del` and its neighbour, and which of them can coincide. */
  lemma AroundNeighbour(L: Layout, ord: seq<Node>, root: Node?, del: Node, node: Node, left: Side)
    requires Shaped(L, ord, root) && Neighbour(L, del, node, left)
    ensures var D, N := L[del], L[node]; var dl, dr, nk := D.kids.Get(left), D.kids.Get(left.Opp()), N.kids.Get(left);
      && del != node && N.up != null && N.up in L && N.up != node
      && dl !in {del, dr} && dr !in {del, node, N.up} && L[dl].up == del && L[dr].up == del
      && nk !in {del, node, dl, dr, N.up} && (nk != null ==> nk in L && L[nk].up == node)
      && D.up !in {del, node, dl, dr, N.up} && (D.up != null ==> D.up in L && D.up != nk)
      && (dl == node <==> N.up == del) && (dl == node ==> N.side == left)
      && (D.up == null <==> del == root) && node != root
  {
    var D, N := L[del], L[node];
    var dl, dr, nk := D.kids.Get(left), D.kids.Get(left.Opp()), N.kids.Get(left);
    assert Seat(L, ord, root, del) && Slot(L, del, left) && Slot(L, del, left.Opp());
    assert Seat(L, ord, root, node) && Slot(L, node, left);
    assert Seat(L, ord, root, dl) && Seat(L, ord, root, dr);
    Inside(L, ord, root, dl, N.pos);
    assert Seat(L, ord, root, N.up) && Slot(L, N.up, N.side);
    if nk != null {
      assert Seat(L, ord, root, nk);
    }
    if D.up != null {
      assert Seat(L, ord, root, D.up) && Slot(L, D.up, D.side);
    }
  }

  /** The links that the renaming leaves at each node. */
  lemma RenamedLinks(L: Layout, ord: seq<Node>, root: Node?, del: Node, node: Node, tmp: Node, left: Side, y: Node)
    requires Shaped(L, ord, root) && Neighbour(L, del, node, left) && tmp !in L && del != node
    requires y in Renamed(L, del, node, tmp)
    ensures var D, N, r := L[del], L[node], Renamed(L, del, node, tmp)[y];
      var dl, dr, nk := D.kids.Get(left), D.kids.Get(left.Opp()), N.kids.Get(left);
      && r.kids == (if y == node then (if dl == node then D.kids.Put(left, tmp) else D.kids)
                    else if y == tmp then N.kids
                    else if y == D.up then L[y].kids.Put(D.side, node)
                    else if y == N.up then L[y].kids.Put(N.side, tmp) else L[y].kids)
      && r.up == (if y == node then D.up else if y == tmp then (if dl == node then node else N.up)
                  else if y == dl || y == dr then node else if y == nk then tmp else L[y].up)
      && r.side == (if y == node then D.side else if y == tmp then N.side else L[y].side)
      && r.bal == (if y == node then D.bal else if y == tmp then N.bal else L[y].bal)
  {
    AroundNeighbour(L, ord, root, del, node, left);
    var x := Was(y, del, node, tmp);
    assert Seat(L, ord, root, x) && Slot(L, x, Left) && Slot(L, x, Right);
    assert Seat(L, ord, root, del) && Seat(L, ord, root, node);
    hide Shaped;
  }
}
