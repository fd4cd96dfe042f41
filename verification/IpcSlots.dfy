/** One type of shared object: a bitmap of its slots and the slot handed out last.  Allocation scans
    cyclically from a start slot that was read before the lock was taken. */
module IpcSlots {
  import opened Division
  import opened Wrappers

  /** The slot `d` places after `start`, going round once at most. */
  function Around(n: nat, start: nat, d: nat): (i: nat)
    requires start < n && d <= n
    ensures i < n
  {
    if start + d < n then start + d else start + d - n
  }

  /** `i` is the first free slot after `start`, in cyclic order, other than `start` itself. */
  ghost predicate FirstFree(taken: seq<bool>, start: nat, i: nat)
    requires start < |taken|
  {
    exists d | 0 < d < |taken| :: FreeAt(taken, start, i, d)
  }

  ghost predicate FreeAt(taken: seq<bool>, start: nat, i: nat, d: nat)
    requires start < |taken| && 0 < d < |taken|
  {
    && i == Around(|taken|, start, d) && !taken[i]
    && forall e | 0 < e < d :: taken[Around(|taken|, start, e)]
  }

  /** Every slot other than `start` is taken. */
  ghost predicate AllElse(taken: seq<bool>, start: nat) {
    forall i | 0 <= i < |taken| && i != start :: taken[i]
  }

  /** Every slot but `start` is passed on the way round. */
  lemma Passes(n: nat, start: nat, i: nat) returns (d: nat)
    requires start < n && i < n && i != start
    ensures 0 < d < n && Around(n, start, d) == i
  {
    d := if start < i then i - start else i + n - start;
  }

  lemma FirstFreeUnique(taken: seq<bool>, start: nat, i: nat, j: nat)
    requires start < |taken| && FirstFree(taken, start, i) && FirstFree(taken, start, j)
    ensures i == j
  {
    var d :| 0 < d < |taken| && FreeAt(taken, start, i, d);
    var e :| 0 < e < |taken| && FreeAt(taken, start, j, e);
  }

  /** What the scan decides: the first free slot after the start, or nothing if there is none. */
  ghost predicate Scanned(taken: seq<bool>, start: nat, r: Option<nat>)
    requires start < |taken|
  {
    match r
    case Some(i) => i < |taken| && i != start && FirstFree(taken, start, i)
    case None => AllElse(taken, start)
  }

  /** Failure and success exclude each other, so the outcome is determined. */
  lemma ScannedUnique(taken: seq<bool>, start: nat, r: Option<nat>, r': Option<nat>)
    requires start < |taken| && Scanned(taken, start, r) && Scanned(taken, start, r')
    ensures r == r'
  {
    if r.Some? && r'.Some? {
      FirstFreeUnique(taken, start, r.value, r'.value);
    }
  }

  ghost function FreeSlots(taken: seq<bool>): set<int> {
    set i | 0 <= i < |taken| && !taken[i]
  }

  /** How many allocations will succeed in a row if nothing is freed and each starts from the slot
      handed out last: all free slots, or none if only the start slot itself is free. */
  ghost function Grants(taken: seq<bool>, last: nat): nat {
    if FreeSlots(taken) - {last} == {} then 0 else |FreeSlots(taken)|
  }

  /** There is a grant left exactly if some slot other than the start slot is free. */
  lemma GrantsLeft(taken: seq<bool>, last: nat)
    ensures 0 < Grants(taken, last) <==> !AllElse(taken, last)
  {
    var F := FreeSlots(taken);
    if !AllElse(taken, last) {
      var i :| 0 <= i < |taken| && i != last && !taken[i];
      assert i in F - {last};
    } else {
      assert F - {last} <= {};
    }
  }

  /** A grant uses up exactly one. */
  lemma GrantUsed(taken: seq<bool>, last: nat, i: nat)
    requires i < |taken| && i != last && !taken[i]
    ensures Grants(taken[i := true], i) == Grants(taken, last) - 1
  {
    var F, G := FreeSlots(taken), FreeSlots(taken[i := true]);
    assert i in F - {last};
    assert G == F - {i} && G - {i} == G;
  }

  class Slots {
    const bitmap: array<bool>
    var last: nat

    ghost predicate Valid()
      reads this
    {
      last < bitmap.Length
    }

    constructor (max: nat)
      requires 0 < max
      ensures Valid() && fresh(bitmap) && bitmap.Length == max && last == 0
      ensures forall i | 0 <= i < max :: !bitmap[i]
    {
      bitmap := new bool[max](_ => false);
      last := 0;
    }

    /** The part of ipc_malloc under the lock; `start` is the earlier reading of `last`. */
    method Malloc(start: nat) returns (r: Option<nat>)
      requires Valid() && start < bitmap.Length
      modifies this`last, bitmap
      ensures Valid() && Scanned(old(bitmap[..]), start, r)
      ensures start == old(last) ==>
        && (r.None? <==> old(Grants(bitmap[..], last)) == 0)
        && (r.Some? ==> Grants(bitmap[..], last) == old(Grants(bitmap[..], last)) - 1)
      ensures r.None? ==> bitmap[..] == old(bitmap[..]) && last == old(last)
      ensures r.Some? ==> bitmap[..] == old(bitmap[..])[r.value := true] && last == r.value
    {
      var n := bitmap.Length;
      var i := start;
      ghost var d := 0;
      while true
        invariant 0 <= d < n && i == Around(n, start, d)
        invariant forall e | 0 < e <= d :: bitmap[Around(n, start, e)]
        decreases n - d
      {
        i := i + 1;
        if i >= n {
          i := 0;
        }
        d := d + 1;
        if !bitmap[i] || i == start {
          break;
        }
      }
      ghost var taken := bitmap[..];
      GrantsLeft(taken, start);
      if i == start {
        forall j | 0 <= j < n && j != start ensures taken[j] {
          var e := Passes(n, start, j);
          assert e < d;
        }
        return None;
      }
      assert FreeAt(taken, start, i, d);
      GrantUsed(taken, start, i);
      bitmap[i] := true;
      last := i;
      assert bitmap[..] == taken[i := true];
      return Some(i);
    }

    /** ipc_free: the slot is computed from the address of the object. */
    method Free(addr: nat, base: nat, size: nat)
      requires 0 < size && base <= addr && (addr - base) / size < bitmap.Length
      modifies bitmap
      ensures bitmap[..] == old(bitmap[..])[(addr - base) / size := false]
    {
      bitmap[(addr - base) / size] := false;
    }
  }

  /** The slot that ipc_free computes for the address that ipc_malloc returned. */
  lemma FreesWhatWasAllocated(base: nat, size: nat, i: nat)
    requires 0 < size
    ensures 0 <= i * size && (base + i * size - base) / size == i
  {
    Exactly(i, size);
  }

  /** The stated promise, NULL only if all objects are allocated, fails for a pool of any size: the
      scan never considers its own start slot. */
  lemma FailsWithFreeSlot(taken: seq<bool>, start: nat)
    requires start < |taken| && AllElse(taken, start)
    ensures Scanned(taken[start := false], start, None) && !taken[start := false][start]
  {
  }

  /** The promise is met if and only if the start slot is taken or some other slot is free. */
  lemma FailsOnlyWhenFull(taken: seq<bool>, start: nat, r: Option<nat>)
    requires start < |taken| && Scanned(taken, start, r)
    ensures (r == None ==> forall i | 0 <= i < |taken| :: taken[i])
      <==> taken[start] || exists i | 0 <= i < |taken| && i != start :: !taken[i]
  {
    if r.Some? {
      assert r.value != start && !taken[r.value];
    }
  }
}
