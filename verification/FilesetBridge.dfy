/** The trees of a fileset as index sets are what the AVL trees hold: finding and scanning on the
    nodes gives the entries that the set operations name. */
module FilesetBridge {
  import opened AvlLayout
  import opened AvlHeap
  import opened AvlSearch
  import opened AvlUpdate
  import T = FilesetTrees
  import opened FilesetState

  ghost function KeysOf(s: seq<Node>): set<int>
    reads s
  {
    set i | 0 <= i < |s| :: s[i].key
  }

  /** The flags in the entry table are those of the nodes. */
  ghost predicate Mirrors(f: Files, s: seq<Node>)
    reads s
  {
    forall i | 0 <= i < |s| :: s[i].key in f.entries && f.entries[s[i].key].busy == s[i].busy
  }

  /** fileset_find_entry on the nodes is Requested on the indices. */
  lemma RequestedAgrees(s: seq<Node>, index: int, q: int)
    requires Sorted(s) && T.IsRequested(s, index, q)
    ensures KeysOf(s) != {} && Requested(KeysOf(s), index) == s[q].key
  {
    var K := KeysOf(s);
    assert s[q].key in K;
    if s[q].key >= index {
      assert IsLeast(AtOrAbove(K, index), s[q].key);
      LeastIs(AtOrAbove(K, index), s[q].key);
    } else {
      assert AtOrAbove(K, index) <= {};
      assert IsLeast(K, s[q].key);
      LeastIs(K, s[q].key);
    }
  }

  /** If everything passed is busy and the current entry is not, it is the first idle one. */
  lemma ScanFinds(f: Files, T: set<int>, q: int, e: int)
    requires e in T && e in Idle(f) && forall x | x in T && Passed(q, x, e) :: x !in Idle(f)
    ensures FirstIdle(f, T, q) == Picked(e)
  {
    var I := T * Idle(f);
    assert e in I;
    if q <= e {
      assert e in AtOrAbove(I, q);
    } else {
      assert forall x | x in I :: x !in AtOrAbove(I, q);
      assert AtOrAbove(I, q) <= {};
    }
  }

  /** The busy scan on the nodes is FirstIdle on the indices. */
  lemma ScanAgrees(f: Files, s: seq<Node>, q: int, r: Node)
    requires Sorted(s) && Mirrors(f, s) && 0 <= q < |s| && T.FirstIdle(s, q, r)
    ensures FirstIdle(f, KeysOf(s), s[q].key) == Picked(r.key)
  {
    var n := |s|;
    var d :| 0 <= d < n && s[T.Around(q, d, n)] == r && !r.busy && forall e | 0 <= e < d :: s[T.Around(q, e, n)].busy;
    var p := T.Around(q, d, n);
    forall x | x in KeysOf(s) && Passed(s[q].key, x, r.key) ensures x !in Idle(f) {
      var i :| 0 <= i < n && s[i].key == x;
      assert if q <= p then q <= i < p else q <= i || i < p;
      var e := if q <= i then i - q else i - q + n;
      assert s[T.Around(q, e, n)] == s[i];
    }
    ScanFinds(f, KeysOf(s), s[q].key, r.key);
  }

  /** It finds nothing on the nodes exactly if it finds nothing on the indices. */
  lemma ScanAgreesNone(f: Files, s: seq<Node>, q: int)
    requires Mirrors(f, s) && 0 <= q < |s|
    ensures FirstIdle(f, KeysOf(s), s[q].key) == Nothing <==> forall i | 0 <= i < |s| :: s[i].busy
  {
    var K := KeysOf(s);
    if forall i | 0 <= i < |s| :: s[i].busy {
      assert forall x | x in K :: x !in Idle(f);
      assert K * Idle(f) <= {};
    } else {
      var i :| 0 <= i < |s| && !s[i].busy;
      assert s[i].key in K * Idle(f);
    }
  }

  /** Some node of `S` has the key. */
  ghost predicate KeyIn(S: set<Node>, k: int)
    reads S`key
  {
    exists n :: n in S && n.key == k
  }

  /** The keys in the sequence are the keys of the nodes in the tree. */
  lemma TreeKeys(tree: AvlTree, k: int)
    requires tree.Linked()
    ensures k in KeysOf(tree.ord) <==> KeyIn(tree.L.Keys, k)
  {
    forall n | n in tree.L ensures 0 <= tree.L[n].pos < |tree.ord| && tree.ord[tree.L[n].pos] == n {
      InTree(tree.L, tree.ord, tree.root, n);
    }
    forall i | 0 <= i < |tree.ord| ensures tree.ord[i] in tree.L {
    }
  }

  /** fileset_find_entry and the busy scan on a tree that is not empty find what Requested and
      FirstIdle name. */
  method FindIdle(t: AvlTree, want: int, ghost f: Files) returns (start: Node, entry: Node?)
    requires T.Index(t) && Mirrors(f, t.ord) && t.ord != []
    ensures start in t.L && KeysOf(t.ord) != {} && start.key == Requested(KeysOf(t.ord), want)
    ensures entry == null ==> FirstIdle(f, KeysOf(t.ord), start.key) == Nothing
    ensures entry != null ==> entry in t.L && FirstIdle(f, KeysOf(t.ord), start.key) == Picked(entry.key)
  {
    hide Sorted, KeysOf, Mirrors, Requested, FirstIdle, Off;
    var found := T.FindEntry(t, want);
    InTree(t.L, t.ord, t.root, found);
    RequestedAgrees(t.ord, want, t.L[found].pos);
    start := found;
    entry := T.BusyScan(t, start);
    if entry == null {
      AllBusy(t);
      ScanAgreesNone(f, t.ord, t.L[start].pos);
    } else {
      ScanAgrees(f, t.ord, t.L[start].pos, entry);
    }
  }

  lemma AllBusy(t: AvlTree)
    requires t.Linked() && forall n | n in t.L :: n.busy
    ensures forall i | 0 <= i < |t.ord| :: t.ord[i].busy
  {
  }
}
