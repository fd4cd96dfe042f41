/** avl_insert_here, avl_add and the avl_update family. */
module AvlUpdate {
  import opened AvlLayout
  import opened AvlGap
  import opened AvlDrop
  import opened AvlHeap
  import opened AvlInsert
  import opened AvlSearch
  import opened AvlRemove

  /** avl_insert_here: puts `node` directly before (Left) or after (Right) `here`. */
  method InsertHere(tree: AvlTree, node: Node, here: Node, direction: Side)
    requires tree.Valid() && here in tree.L && node !in tree.L
    modifies tree
    modifies tree.L.Keys`child, tree.L.Keys`parent, tree.L.Keys`childIndex, tree.L.Keys`balance
    modifies node`child, node`parent, node`childIndex, node`balance
    ensures tree.Valid() && tree.L.Keys == old(tree.L.Keys) + {node}
    ensures var i := old(tree.L)[here].pos + (if direction.Left? then 0 else 1);
      0 <= i <= |old(tree.ord)| && tree.ord == InsertAt(old(tree.ord), i, node)
  {
    assert Seat(tree.L, tree.ord, tree.root, here) && Slot(tree.L, here, direction) && tree.TiedAt(here);
    var at, child := here, direction;
    if at.child.Get(child) != null {
      at := Descend(tree, at.child.Get(child), child.Opp());
      child := child.Opp();
      assert Seat(tree.L, tree.ord, tree.root, at) && Slot(tree.L, at, child);
    }
    hide Shaped;
    Insert(tree, node, Index(at, child));
  }

  /** Some node of `s` has the given key. */
  ghost predicate HasKey(s: seq<Node>, key: int)
    reads s`key
  {
    exists i :: 0 <= i < |s| && s[i].key == key
  }

  lemma SortedInsert(s: seq<Node>, i: int, n: Node)
    requires Sorted(s) && 0 <= i <= |s| && Brackets(s, i, i, n.key)
    ensures Sorted(InsertAt(s, i, n))
  {
  }

  lemma InTree(L: Layout, ord: seq<Node>, root: Node?, n: Node)
    requires Shaped(L, ord, root) && n in L
    ensures 0 <= L[n].pos < |ord| && ord[L[n].pos] == n
  {
    assert Seat(L, ord, root, n);
  }

  /** avl_add: inserts at the sorted position, or gives up if the key is already there. */
  method Add(tree: AvlTree, node: Node)
    requires tree.Valid() && Sorted(tree.ord)
    modifies tree
    modifies tree.L.Keys`child, tree.L.Keys`parent, tree.L.Keys`childIndex, tree.L.Keys`balance
    modifies node`child, node`parent, node`childIndex, node`balance
    ensures tree.Valid() && Sorted(tree.ord)
    ensures old(HasKey(tree.ord, node.key)) ==> tree.ord == old(tree.ord) && tree.L == old(tree.L)
    ensures !old(HasKey(tree.ord, node.key)) ==>
      && tree.L.Keys == old(tree.L.Keys) + {node}
      && exists i :: 0 <= i <= |old(tree.ord)| && tree.ord == InsertAt(old(tree.ord), i, node)
  {
    var found, where, _ := Find(tree, node.key);
    if found != null {
      InTree(tree.L, tree.ord, tree.root, found);
      return;
    }
    if node in tree.L {
      InTree(tree.L, tree.ord, tree.root, node);
    }
    hide Shaped;
    hide Off;
    ghost var i := Gap(tree.L, where.node, where.child);
    SortedInsert(tree.ord, i, node);
    Insert(tree, node, where);
  }

  /** The sequence without the node at position `q`. */
  ghost function Others(s: seq<Node>, q: int): seq<Node> {
    if 0 <= q < |s| then RemoveAt(s, q) else s
  }

  /** `q` is out of order against a direct neighbour. */
  ghost predicate Low(s: seq<Node>, q: int)
    reads s
  {
    0 < q < |s| && s[q].key < s[q - 1].key
  }

  ghost predicate High(s: seq<Node>, q: int)
    reads s
  {
    0 <= q < |s| - 1 && s[q + 1].key < s[q].key
  }

  /** If the others are sorted and the key of the node at `q` is none of theirs, comparing the node
      with its two neighbours decides whether the whole sequence is sorted. */
  lemma SortedUnlessMisplaced(s: seq<Node>, q: int)
    requires 0 <= q < |s| && Sorted(Others(s, q)) && !HasKey(Others(s, q), s[q].key)
    ensures Sorted(s) <==> !Low(s, q) && !High(s, q)
  {
    var r := Others(s, q);
    assert forall i | 0 <= i < |s| && i != q :: s[i] == r[if i < q then i else i - 1];
    if !Low(s, q) && !High(s, q) {
      forall i, j | 0 <= i < j < |s| ensures s[i].key < s[j].key {
        if i == q {
          assert s[q + 1] == r[q] && s[j] == r[j - 1];
        } else if j == q {
          assert s[q - 1] == r[q - 1] && s[i] == r[i];
        }
      }
    }
  }

  /** AVL_REINSERT: takes the node out and adds it again; if another node has its key by then, it
      stays out. */
  method Reinsert(tree: AvlTree, obj: Node)
    requires tree.Valid() && obj in tree.L && Sorted(Others(tree.ord, tree.L[obj].pos))
    modifies tree
    modifies tree.L.Keys`child, tree.L.Keys`parent, tree.L.Keys`childIndex, tree.L.Keys`balance
    ensures tree.Valid() && Sorted(tree.ord)
    ensures var rest := Others(old(tree.ord), old(tree.L)[obj].pos);
      tree.L.Keys == if old(HasKey(rest, obj.key)) then old(tree.L.Keys) - {obj} else old(tree.L.Keys)
  {
    hide Shaped;
    hide Off;
    Remove(tree, obj);
    Add(tree, obj);
  }

  /** avl_update.  On a tree sorted but for `obj`, it reports whether `obj` was out of order against
      a neighbour.  If no other node has the new key, the tree is sorted afterwards, holds the same
      nodes, and has changed exactly if it was not sorted before.  If another node has the key, a
      node that has to move is lost. */
  method Update(tree: AvlTree, obj: Node) returns (moved: bool)
    requires tree.Valid() && obj in tree.L && Sorted(Others(tree.ord, tree.L[obj].pos))
    modifies tree
    modifies tree.L.Keys`child, tree.L.Keys`parent, tree.L.Keys`childIndex, tree.L.Keys`balance
    ensures tree.Valid()
    ensures moved == old(Low(tree.ord, tree.L[obj].pos) || High(tree.ord, tree.L[obj].pos))
    ensures !moved ==> tree.L == old(tree.L) && tree.ord == old(tree.ord)
    ensures moved ==> Sorted(tree.ord)
    ensures var rest := Others(old(tree.ord), old(tree.L)[obj].pos);
      && (old(HasKey(rest, obj.key)) ==> tree.L.Keys == if moved then old(tree.L.Keys) - {obj} else old(tree.L.Keys))
      && (!old(HasKey(rest, obj.key)) ==>
           Sorted(tree.ord) && tree.L.Keys == old(tree.L.Keys) && moved == !old(Sorted(tree.ord)))
  {
    ghost var q := tree.L[obj].pos;
    InTree(tree.L, tree.ord, tree.root, obj);
    if !HasKey(Others(tree.ord, q), obj.key) {
      SortedUnlessMisplaced(tree.ord, q);
    }
    hide Shaped;
    hide Off;
    hide Sorted;
    var neighbor := Walk(tree, obj, Left);
    if neighbor != null && Compare(obj.key, neighbor.key) < 0 {
      Reinsert(tree, obj);
      return true;
    }
    neighbor := Walk(tree, obj, Right);
    if neighbor != null && Compare(obj.key, neighbor.key) > 0 {
      Reinsert(tree, obj);
      return true;
    }
    return false;
  }

  /** Out of order against the neighbour on side `c`. */
  ghost predicate Beyond(s: seq<Node>, q: int, c: Side)
    reads s
  {
    if c.Left? then Low(s, q) else High(s, q)
  }

  /** avl_update_lt (Left) and avl_update_gt (Right), for a key known to have changed in one
      direction.  They leave the tree alone if the node is out of order on the opposite side, and
      otherwise do what avl_update does. */
  method UpdateToward(tree: AvlTree, obj: Node, c: Side) returns (moved: bool)
    requires tree.Valid() && obj in tree.L && Sorted(Others(tree.ord, tree.L[obj].pos))
    modifies tree
    modifies tree.L.Keys`child, tree.L.Keys`parent, tree.L.Keys`childIndex, tree.L.Keys`balance
    ensures tree.Valid()
    ensures moved == old(Beyond(tree.ord, tree.L[obj].pos, c) && !Beyond(tree.ord, tree.L[obj].pos, c.Opp()))
    ensures !moved ==> tree.L == old(tree.L) && tree.ord == old(tree.ord)
    ensures moved ==> Sorted(tree.ord)
    ensures var rest := Others(old(tree.ord), old(tree.L)[obj].pos);
      && (old(HasKey(rest, obj.key)) ==> tree.L.Keys == if moved then old(tree.L.Keys) - {obj} else old(tree.L.Keys))
      && (!old(HasKey(rest, obj.key)) && !old(Beyond(tree.ord, tree.L[obj].pos, c.Opp())) ==>
           Sorted(tree.ord) && tree.L.Keys == old(tree.L.Keys) && moved == !old(Sorted(tree.ord)))
  {
    ghost var q := tree.L[obj].pos;
    InTree(tree.L, tree.ord, tree.root, obj);
    if !HasKey(Others(tree.ord, q), obj.key) {
      SortedUnlessMisplaced(tree.ord, q);
    }
    hide Shaped;
    hide Off;
    hide Sorted;
    var neighbor := Walk(tree, obj, c.Opp());
    if neighbor != null && c.Lean(Compare(obj.key, neighbor.key)) < 0 {
      return false;
    }
    neighbor := Walk(tree, obj, c);
    if neighbor != null && c.Lean(Compare(obj.key, neighbor.key)) > 0 {
      Reinsert(tree, obj);
      return true;
    }
    return false;
  }
}
