/** fileset_find_entry, the busy scan of fileset_pick and fileset_move_entry, on the AVL trees that
    index the entries. */
module FilesetTrees {
  import opened AvlLayout
  import opened AvlGap
  import opened AvlHeap
  import opened AvlSearch
  import opened AvlDrop
  import opened AvlRemove
  import opened AvlUpdate

  /** The position of the least key at or above `index`, wrapping to the least key. */
  ghost predicate IsRequested(s: seq<Node>, index: int, q: int)
    reads s
  {
    && 0 <= q < |s|
    && ((s[q].key >= index && forall i | 0 <= i < q :: s[i].key < index)
        || (q == 0 && forall i | 0 <= i < |s| :: s[i].key < index))
  }

  /** fileset_find_entry. */
  method FindEntry(tree: AvlTree, index: int) returns (entry: Node?)
    requires tree.Valid() && Sorted(tree.ord)
    ensures entry == null <==> tree.ord == []
    ensures entry != null ==> entry in tree.L && IsRequested(tree.ord, index, tree.L[entry].pos)
  {
    ghost var ord := tree.ord;
    var found, where, _ := Find(tree, index);
    if found != null {
      assert Seat(tree.L, ord, tree.root, found);
      return found;
    }
    ghost var g := Gap(tree.L, where.node, where.child);
    entry := Nearest(tree, where, Right);
    if entry != null {
      return;
    }
    entry := First(tree);
  }

  /** The position `d` steps after `q`, going round. */
  function Around(q: int, d: int, n: int): int {
    if q + d < n then q + d else q + d - n
  }

  /** `r` is the first entry that is not busy, from position `q` on and going round. */
  ghost predicate FirstIdle(s: seq<Node>, q: int, r: Node)
    requires 0 <= q < |s|
    reads s
  {
    exists d :: 0 <= d < |s| && s[Around(q, d, |s|)] == r && !r.busy
      && forall e | 0 <= e < d :: s[Around(q, e, |s|)].busy
  }

  /** The scan loop of fileset_pick.  It stops after at most one round. */
  method BusyScan(tree: AvlTree, start: Node) returns (entry: Node?)
    requires tree.Valid() && start in tree.L
    ensures 0 <= tree.L[start].pos < |tree.ord|
    ensures entry != null ==> entry in tree.L && FirstIdle(tree.ord, tree.L[start].pos, entry)
    ensures entry == null <==> forall n | n in tree.L :: n.busy
  {
    ghost var ord, L, n, d := tree.ord, tree.L, |tree.ord|, 0;
    assert Seat(L, ord, tree.root, start);
    ghost var q := L[start].pos;
    var e: Node := start;
    while e.busy
      invariant 0 <= d < n && e in L && L[e].pos == Around(q, d, n) && ord[L[e].pos] == e
      invariant forall i | 0 <= i < d :: ord[Around(q, i, n)].busy
      decreases n - d
    {
      var next := Walk(tree, e, Right);
      if next == null {
        next := First(tree);
      }
      assert next == ord[Around(q, if d + 1 < n then d + 1 else 0, n)];
      if next == null || next == start {
        AllRound(L, ord, tree.root, q, d);
        return null;
      }
      e := next;
      d := d + 1;
    }
    return e;
  }

  lemma AllRound(L: Layout, ord: seq<Node>, root: Node?, q: int, d: int)
    requires Shaped(L, ord, root) && 0 <= q < |ord| && d == |ord| - 1
    requires forall i | 0 <= i <= d :: ord[Around(q, i, |ord|)].busy
    ensures forall n | n in L :: n.busy
  {
    forall n | n in L ensures n.busy {
      assert Seat(L, ord, root, n);
      var p := L[n].pos;
      var i := if q <= p then p - q else p - q + |ord|;
      assert ord[Around(q, i, |ord|)] == n;
    }
  }

  /** A tree of entries in index order. */
  ghost predicate Index(tree: AvlTree)
    reads tree, tree.ord`key
    reads tree.L.Keys`child, tree.L.Keys`parent, tree.L.Keys`childIndex, tree.L.Keys`balance
  {
    tree.Valid() && Sorted(tree.ord)
  }

  lemma SortedWithout(s: seq<Node>, q: int)
    requires Sorted(s) && 0 <= q < |s|
    ensures Sorted(RemoveAt(s, q))
  {
  }

  /** fileset_move_entry. */
  method MoveEntry(src: AvlTree, dst: AvlTree, entry: Node)
    requires src != dst && Index(src) && Index(dst) && src.L.Keys !! dst.L.Keys
    requires entry in src.L && !HasKey(dst.ord, entry.key)
    modifies src, dst
    modifies src.L.Keys`child, src.L.Keys`parent, src.L.Keys`childIndex, src.L.Keys`balance
    modifies dst.L.Keys`child, dst.L.Keys`parent, dst.L.Keys`childIndex, dst.L.Keys`balance
    ensures Index(src) && Index(dst)
    ensures src.L.Keys == old(src.L.Keys) - {entry} && dst.L.Keys == old(dst.L.Keys) + {entry}
  {
    hide Shaped;
    hide Off;
    InTree(src.L, src.ord, src.root, entry);
    SortedWithout(src.ord, src.L[entry].pos);
    hide Sorted;
    Remove(src, entry);
    Add(dst, entry);
  }
}
