/** What a layout means, by plain recursion over the child links: its sequence is the in-order
    traversal, its recorded heights are the real ones, and a balanced tree of height h has at least
    Fib(h + 2) - 1 nodes. */
module AvlMeaning {
  import opened AvlLayout

  ghost function Span(L: Layout, n: Node?): int {
    if n == null || n !in L then 0 else L[n].hi - L[n].lo
  }

  ghost predicate Under(L: Layout, ord: seq<Node>, root: Node?, n: Node?) {
    Shaped(L, ord, root) && (n != null ==> n in L && Seat(L, ord, root, n) && Slot(L, n, Left) && Slot(L, n, Right))
  }

  lemma UnderKids(L: Layout, ord: seq<Node>, root: Node?, n: Node)
    requires Shaped(L, ord, root) && n in L
    ensures Under(L, ord, root, n) && Under(L, ord, root, L[n].kids.l) && Under(L, ord, root, L[n].kids.r)
    ensures 0 <= Span(L, L[n].kids.l) < Span(L, n) && 0 <= Span(L, L[n].kids.r) < Span(L, n)
    ensures Span(L, n) == Span(L, L[n].kids.l) + 1 + Span(L, L[n].kids.r)
  {
    assert Seat(L, ord, root, n) && Slot(L, n, Left) && Slot(L, n, Right);
    var l, r := L[n].kids.l, L[n].kids.r;
    if l != null {
      assert Seat(L, ord, root, l) && Slot(L, l, Left) && Slot(L, l, Right);
    }
    if r != null {
      assert Seat(L, ord, root, r) && Slot(L, r, Left) && Slot(L, r, Right);
    }
  }

  ghost function InOrder(L: Layout, ord: seq<Node>, root: Node?, n: Node?): seq<Node>
    requires Under(L, ord, root, n)
    decreases Span(L, n)
  {
    if n == null then [] else
      UnderKids(L, ord, root, n);
      InOrder(L, ord, root, L[n].kids.l) + [n] + InOrder(L, ord, root, L[n].kids.r)
  }

  ghost function Height(L: Layout, ord: seq<Node>, root: Node?, n: Node?): nat
    requires Under(L, ord, root, n)
    decreases Span(L, n)
  {
    if n == null then 0 else
      UnderKids(L, ord, root, n);
      1 + Max(Height(L, ord, root, L[n].kids.l), Height(L, ord, root, L[n].kids.r))
  }

  /** Where the stretches of the children of `n` lie, also when there are none. */
  lemma Pieces(L: Layout, ord: seq<Node>, root: Node?, n: Node)
    requires Shaped(L, ord, root) && n in L
    ensures 0 <= L[n].lo <= L[n].pos < L[n].hi <= |ord|
    ensures ord[L[n].lo..L[n].hi] == ord[L[n].lo..L[n].pos] + [n] + ord[L[n].pos + 1..L[n].hi]
  {
    assert Seat(L, ord, root, n);
  }

  /** The subtree of `n` traversed in order is the stretch `lo..hi` of the slot it hangs in. */
  lemma {:induction false} InOrderIsStretch(L: Layout, ord: seq<Node>, root: Node?, n: Node?, lo: int, hi: int)
    requires Under(L, ord, root, n) && 0 <= lo <= hi <= |ord|
    requires if n == null then lo == hi else L[n].lo == lo && L[n].hi == hi
    ensures InOrder(L, ord, root, n) == ord[lo..hi]
    decreases Span(L, n)
  {
    if n != null {
      UnderKids(L, ord, root, n);
      Pieces(L, ord, root, n);
      InOrderIsStretch(L, ord, root, L[n].kids.l, lo, L[n].pos);
      InOrderIsStretch(L, ord, root, L[n].kids.r, L[n].pos + 1, hi);
    }
  }

  /** The whole tree traversed in order is the sequence. */
  lemma InOrderIsSequence(L: Layout, ord: seq<Node>, root: Node?)
    requires Shaped(L, ord, root)
    ensures Under(L, ord, root, root) && InOrder(L, ord, root, root) == ord
  {
    if root != null {
      UnderKids(L, ord, root, root);
    }
    InOrderIsStretch(L, ord, root, root, 0, |ord|);
  }

  /** The recorded heights are the real ones. */
  lemma {:induction false} HeightIsRecorded(L: Layout, ord: seq<Node>, root: Node?, n: Node?)
    requires Under(L, ord, root, n) && Off(L, null, Left, 0)
    ensures Height(L, ord, root, n) == Ht(L, n)
    decreases Span(L, n)
  {
    if n != null {
      UnderKids(L, ord, root, n);
      HeightIsRecorded(L, ord, root, L[n].kids.l);
      HeightIsRecorded(L, ord, root, L[n].kids.r);
      assert Balanced(L, n);
    }
  }

  function Fib(n: nat): nat {
    if n < 2 then n else Fib(n - 2) + Fib(n - 1)
  }

  lemma {:induction false} FibMonotone(m: nat, n: nat)
    requires m <= n
    ensures Fib(m) <= Fib(n)
    decreases n - m
  {
    if m < n {
      FibMonotone(m, n - 1);
    }
  }

  /** A balanced subtree of height h has at least Fib(h + 2) - 1 nodes. */
  lemma {:induction false} HeightBound(L: Layout, ord: seq<Node>, root: Node?, n: Node?)
    requires Under(L, ord, root, n) && Off(L, null, Left, 0)
    ensures Fib(Ht(L, n) + 2) - 1 <= Span(L, n)
    decreases Span(L, n)
  {
    if n != null {
      UnderKids(L, ord, root, n);
      var l, r := L[n].kids.l, L[n].kids.r;
      HeightBound(L, ord, root, l);
      HeightBound(L, ord, root, r);
      assert Balanced(L, n);
      var h := Ht(L, n);
      FibMonotone(h, Ht(L, l) + 2);
      FibMonotone(h, Ht(L, r) + 2);
    }
  }
}
