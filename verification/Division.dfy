/** Facts about integer division that the random scaling and the slot allocator need. */
module Division {

  lemma Ordered(a: int, b: int, c: nat)
    requires a <= b
    ensures a * c <= b * c
  {
  }

  /** `x / d` is the only number of times `d` goes into `x`. */
  lemma Goes(x: int, d: int, k: int)
    requires 0 < d
    ensures x / d == k <==> k * d <= x < (k + 1) * d
  {
    var f, m := x / d, x % d;
    assert x == d * f + m;
    if k < f {
      Ordered(k + 1, f, d);
    } else if f < k {
      Ordered(f + 1, k, d);
    }
  }

  lemma GoesAtLeast(x: int, d: int, k: int)
    requires 0 < d
    ensures k <= x / d <==> k * d <= x
  {
    var f := x / d;
    Goes(x, d, f);
    if k <= f {
      Ordered(k, f, d);
    } else {
      Ordered(f + 1, k, d);
    }
  }

  lemma Exactly(k: nat, d: nat)
    requires 0 < d
    ensures 0 <= k * d && (k * d) / d == k
  {
    Goes(k * d, d, k);
  }

  lemma MultipleMod(k: int, d: int)
    requires 0 < d
    ensures (k * d) % d == 0
  {
    Goes(k * d, d, k);
    assert (k * d) % d == k * d - d * ((k * d) / d);
  }

  lemma NestedShare(raw: nat, q: nat, round: nat, k: nat)
    requires 0 < q && 0 < round
    ensures raw / q / round == k <==> k * (round * q) <= raw < (k + 1) * (round * q)
  {
    Goes(raw / q, round, k);
    GoesAtLeast(raw, q, k * round);
    GoesAtLeast(raw, q, (k + 1) * round);
    Associate(k, round, q);
    Associate(k + 1, round, q);
  }

  lemma Associate(a: int, b: int, c: int)
    ensures a * b * c == a * (b * c)
  {
  }

  lemma DistinctMultiples(j: int, k: int, d: int)
    requires 0 < d && j != k
    ensures j * d != k * d
  {
    Goes(j * d, d, j);
    Goes(k * d, d, k);
  }

  lemma Shrinks(x: nat, y: nat, d: nat)
    requires x <= y && 0 < d
    ensures x / d <= y / d
  {
    GoesAtLeast(x, d, x / d);
    GoesAtLeast(y, d, x / d);
  }

  lemma OneLess(x: int, d: int)
    requires 0 < d && x % d == 0
    ensures (x / d - 1) * d == x - d
  {
  }

  lemma Commute(a: int, b: int)
    ensures a * b == b * a
  {
  }

  lemma Spread(a: int, b: int)
    ensures (a + 1) * b == a * b + b && (b + 1) * a == b * a + a
  {
  }

  lemma Distribute(a: int, b: int, c: int)
    ensures a * (b + c) == a * b + a * c
  {
  }
}
