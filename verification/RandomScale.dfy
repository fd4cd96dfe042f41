/** The integer scaling behind every random offset and index.  The raw number is a parameter, so the
    claims hold for the urandom source and for any attribute that takes its place. */
module RandomScale {
  import opened Division

  const RANDMAX64: nat := 0xFFFF_FFFF_FFFF_FFFF
  const RANDMAX32: nat := 0xFFFF_FFFF

  datatype Result = Chosen(value: nat) | TooSmall

  function Quotient(top: nat, span: nat): (q: nat)
    requires 0 < span <= top
    ensures 0 < q && span * q <= top
  {
    QuotientFits(top, span);
    top / span
  }

  lemma QuotientFits(top: nat, span: nat)
    requires 0 < span <= top
    ensures 0 < top / span && span * (top / span) <= top
  {
    GoesAtLeast(top, span, 1);
    GoesAtLeast(top, span, top / span);
  }

  function RoundDown(x: nat, d: nat): nat
    requires 0 < d
  {
    x / d * d
  }

  /** filebench_randomno64 (top = RANDMAX64) and filebench_randomno32 (top = RANDMAX32). */
  function RandomNo(top: nat, raw: nat, max: nat, round: nat): (r: Result)
    requires raw <= top && max <= top
  {
    if max <= round then (if max == round then Chosen(0) else TooSmall)
    else
      var span := max - round;
      var scaled := raw / Quotient(top, span);
      var rounded := if round == 0 then scaled else RoundDown(scaled, round);
      Chosen(if rounded > span then span else rounded)
  }

  /** Fails exactly if the rounding unit is larger than the range. */
  lemma FailsExactly(top: nat, raw: nat, max: nat, round: nat)
    requires raw <= top && max <= top
    ensures RandomNo(top, raw, max, round).TooSmall? <==> max < round
  {
  }

  /** A block of `round` units at the chosen value fits, and the value is a multiple of `round` or the
      last one possible. */
  lemma Fits(top: nat, raw: nat, max: nat, round: nat)
    requires raw <= top && max <= top && round <= max
    ensures var r := RandomNo(top, raw, max, round).value;
      r + round <= max && (round == 0 || r % round == 0 || r == max - round)
  {
    if round < max && round != 0 {
      var k := raw / Quotient(top, max - round) / round;
      GoesAtLeast(raw, Quotient(top, max - round), 0);
      GoesAtLeast(raw / Quotient(top, max - round), round, 0);
      MultipleMod(k, round);
    }
  }

  /** Which raw numbers give the block k, for every block that ends at or before the last possible
      offset: an interval that has the same length, round * Quotient, for all of them. */
  lemma ShareOf(top: nat, raw: nat, max: nat, round: nat, k: nat)
    requires raw <= top && max <= top && 0 < round < max && (k + 1) * round <= max - round
    ensures RandomNo(top, raw, max, round) == Chosen(k * round)
      <==> k * (round * Quotient(top, max - round)) <= raw < (k + 1) * (round * Quotient(top, max - round))
  {
    var span := max - round;
    var q := Quotient(top, span);
    var scaled := raw / q;
    var j := scaled / round;
    NestedShare(raw, q, round, k);
    if j * round > span {
      assert j != k;
      assert k * round < span;
    } else if j != k {
      DistinctMultiples(j, k, round);
    }
  }

  /** Every multiple of `round` at which a block still fits is chosen for some raw number. */
  lemma Reached(top: nat, max: nat, round: nat, k: nat) returns (raw: nat)
    requires max <= top && round < max && k * round <= max - round
    ensures raw <= top && RandomNo(top, raw, max, round) == Chosen(k * round)
  {
    var target, q := k * round, Quotient(top, max - round);
    raw := target * q;
    Ordered(target, max - round, q);
    Exactly(target, q);
    if round != 0 {
      Exactly(k, round);
    }
  }

  /** Without rounding every value up to `max` is reached, `max` itself included. */
  lemma ReachedUnrounded(top: nat, max: nat, v: nat) returns (raw: nat)
    requires 0 < max <= top && v <= max
    ensures raw <= top && RandomNo(top, raw, max, 0) == Chosen(v)
  {
    var q := Quotient(top, max);
    raw := v * q;
    Ordered(v, max, q);
    Exactly(v, q);
  }

  /** A larger raw number never gives a smaller value. */
  lemma Monotone(top: nat, raw: nat, raw': nat, max: nat, round: nat)
    requires raw <= raw' <= top && round <= max <= top
    ensures RandomNo(top, raw, max, round).value <= RandomNo(top, raw', max, round).value
  {
    if round < max {
      var q := Quotient(top, max - round);
      Shrinks(raw, raw', q);
      if round != 0 {
        Shrinks(raw / q, raw' / q, round);
        Ordered(raw / q / round, raw' / q / round, round);
      }
    }
  }

  /** A flowop's private I/O buffer: its real size and fo_buf_size. */
  datatype Buffer = NoBuffer | Buffer(length: nat, recorded: nat)

  /** fo_buf_size may understate the buffer, never overstate it. */
  predicate Honest(b: Buffer) {
    b.Buffer? ==> b.recorded <= b.length
  }

  /** The buffer has to be allocated, or freed and allocated again. */
  predicate MustAllocate(b: Buffer, iosize: nat) {
    b.NoBuffer? || b.recorded < iosize
  }

  /** What a random read or write depends on: the thread's memory size, the flowop's working set
      size, the size of the file, the I/O size, the private buffer, and whether malloc will succeed. */
  datatype Request = Request(memsize: nat, constwss: nat, size: nat, iosize: nat, buffer: Buffer, malloc: bool) {
    function Wss(): nat {
      if constwss == 0 then size else constwss
    }
    predicate Representable() {
      memsize <= RANDMAX64 && constwss <= RANDMAX64 && size <= RANDMAX64
    }
  }

  /** An offset into the thread's memory, or a private buffer. */
  datatype Place = Memory(offset: nat) | Own(buffer: Buffer) | NoPlace

  /** flowoplib_iobufsetup */
  function BufferSetup(q: Request, raw: nat): Place
    requires q.Representable() && raw <= RANDMAX64
  {
    if q.iosize == 0 then NoPlace
    else if q.memsize != 0 then
      match RandomNo(RANDMAX64, raw, q.memsize, q.iosize)
      case TooSmall => NoPlace
      case Chosen(offset) => Memory(offset)
    else if !MustAllocate(q.buffer, q.iosize) then Own(q.buffer.(recorded := q.iosize))
    else if q.malloc then Own(Buffer(q.iosize, q.iosize))
    else NoPlace
  }

  datatype Transfer = Transfer(place: Place, file: nat) | Refused

  /** flowoplib_iosetup and the random branch of flowoplib_read. */
  function RandomTransfer(q: Request, raw: nat, raw': nat): Transfer
    requires q.Representable() && raw <= RANDMAX64 && raw' <= RANDMAX64
  {
    var place := BufferSetup(q, raw);
    if place.NoPlace? then Refused
    else
      match RandomNo(RANDMAX64, raw', q.Wss(), q.iosize)
      case TooSmall => Refused
      case Chosen(file) => Transfer(place, file)
  }

  /** Random I/O is refused exactly if it has no size, is larger than the thread's memory or the
      working set, or needs a private buffer that cannot be had; otherwise it lies within the working
      set and within the thread's memory or a private buffer that is large enough. */
  lemma TransferFits(q: Request, raw: nat, raw': nat)
    requires q.Representable() && raw <= RANDMAX64 && raw' <= RANDMAX64 && Honest(q.buffer)
    ensures var t := RandomTransfer(q, raw, raw');
      && (t.Refused? <==>
            || q.iosize == 0 || q.Wss() < q.iosize || (q.memsize != 0 && q.memsize < q.iosize)
            || (q.memsize == 0 && MustAllocate(q.buffer, q.iosize) && !q.malloc))
      && (t.Transfer? ==> t.file + q.iosize <= q.Wss())
      && (t.Transfer? && t.place.Memory? ==> q.memsize != 0 && t.place.offset + q.iosize <= q.memsize)
      && (t.Transfer? && t.place.Own? ==>
            q.memsize == 0 && t.place.buffer.Buffer? && q.iosize <= t.place.buffer.length && Honest(t.place.buffer))
  {
    if 0 < q.iosize <= q.memsize {
      Fits(RANDMAX64, raw, q.memsize, q.iosize);
    }
    if 0 < q.iosize <= q.Wss() {
      Fits(RANDMAX64, raw', q.Wss(), q.iosize);
    }
  }

  /** Every block of a range is drawn for some raw number. */
  lemma BlockDrawn(range: nat, size: nat, k: nat) returns (raw: nat)
    requires 0 < size <= range <= RANDMAX64 && (k + 1) * size <= range
    ensures raw <= RANDMAX64 && RandomNo(RANDMAX64, raw, range, size) == Chosen(k * size)
  {
    Spread(k, size);
    if size < range {
      raw := Reached(RANDMAX64, range, size, k);
    } else {
      raw := 0;
      if 0 < k {
        Ordered(1, k, size);
      }
      assert k == 0;
    }
  }

  /** I/O that is not refused goes to every block of the working set, for some raw number. */
  lemma FileBlockDrawn(q: Request, raw: nat, k: nat) returns (raw': nat)
    requires q.Representable() && raw <= RANDMAX64 && !BufferSetup(q, raw).NoPlace? && (k + 1) * q.iosize <= q.Wss()
    ensures raw' <= RANDMAX64 && RandomTransfer(q, raw, raw') == Transfer(BufferSetup(q, raw), k * q.iosize)
  {
    Spread(k, q.iosize);
    Ordered(0, k, q.iosize);
    raw' := BlockDrawn(q.Wss(), q.iosize, k);
  }

  /** And it comes from every block of the thread's memory, if there is one. */
  lemma MemoryBlockDrawn(q: Request, k: nat) returns (raw: nat)
    requires q.Representable() && 0 < q.iosize && q.memsize != 0 && (k + 1) * q.iosize <= q.memsize
    ensures raw <= RANDMAX64 && BufferSetup(q, raw) == Memory(k * q.iosize)
  {
    Spread(k, q.iosize);
    Ordered(0, k, q.iosize);
    raw := BlockDrawn(q.memsize, q.iosize, k);
  }

  /** The offset plus I/O size that the largest raw number gives. */
  function Reach(q: Request): nat
    requires q.Representable() && 0 < q.iosize <= q.Wss()
  {
    RandomNo(RANDMAX64, RANDMAX64, q.Wss(), q.iosize).value + q.iosize
  }

  /** What the largest raw number is scaled to, before rounding: the span itself or a little more. */
  function Scaled(span: nat): nat
    requires 0 < span <= RANDMAX64
  {
    RANDMAX64 / Quotient(RANDMAX64, span)
  }

  lemma ScaledAtLeast(span: nat)
    requires 0 < span <= RANDMAX64
    ensures span <= Scaled(span)
  {
    GoesAtLeast(RANDMAX64, Quotient(RANDMAX64, span), span);
  }

  /** For spans below 2^32 it is the span itself. */
  lemma ScaledExactly(span: nat)
    requires 0 < span < 0x1_0000_0000
    ensures Scaled(span) == span
  {
    var q := Quotient(RANDMAX64, span);
    GoesAtLeast(RANDMAX64, span, 0x1_0000_0000);
    Goes(RANDMAX64, span, q);
    Commute(span, q);
    Spread(span, q);
    Goes(RANDMAX64, q, span);
  }

  /** The reach in closed form: the whole working set if scaling overshoots into another unit, else
      the largest multiple of the I/O size within it. */
  lemma ReachIs(q: Request)
    requires q.Representable() && 0 < q.iosize <= q.Wss()
    ensures Reach(q) ==
      if q.iosize < q.Wss() && Scaled(q.Wss() - q.iosize) / q.iosize > (q.Wss() - q.iosize) / q.iosize then q.Wss()
      else RoundDown(q.Wss(), q.iosize)
    ensures q.Wss() - q.iosize < 0x1_0000_0000 ==> Reach(q) == RoundDown(q.Wss(), q.iosize)
  {
    var w, d := q.Wss(), q.iosize;
    OneUnit(d);
    if d < w {
      var span := w - d;
      var scaled := Scaled(span);
      ScaledAtLeast(span);
      if span < 0x1_0000_0000 {
        ScaledExactly(span);
      }
      Shrinks(span, scaled, d);
      RoundedUp(span, d);
      if scaled / d > span / d {
        Ordered(span / d + 1, scaled / d, d);
      }
    }
  }

  lemma OneUnit(d: nat)
    requires 0 < d
    ensures RoundDown(d, d) == d
  {
    Exactly(1, d);
  }

  /** Rounding down commutes with adding one unit, and the next multiple is beyond. */
  lemma RoundedUp(x: nat, d: nat)
    requires 0 < d
    ensures RoundDown(x, d) <= x < (x / d + 1) * d && RoundDown(x + d, d) == RoundDown(x, d) + d
  {
    Goes(x, d, x / d);
    Spread(x / d, d);
    Spread(x / d + 1, d);
    Goes(x + d, d, x / d + 1);
  }

  /** Random I/O stays within the file, whatever the raw number, exactly if its reach does.  That is
      so if no working set size is given or it does not exceed the file; where the I/O size divides
      the working set, only then; and for working sets of less than 4 GB exactly if the largest
      multiple of the I/O size in the working set does not exceed the file. */
  lemma WithinFile(q: Request)
    requires q.Representable() && 0 < q.iosize <= q.Wss()
    ensures Reach(q) <= q.size <==>
      forall raw: nat | raw <= RANDMAX64 :: RandomNo(RANDMAX64, raw, q.Wss(), q.iosize).value + q.iosize <= q.size
    ensures q.constwss == 0 || q.constwss <= q.size ==> Reach(q) <= q.size
    ensures q.Wss() % q.iosize == 0 ==> (Reach(q) <= q.size <==> q.constwss == 0 || q.constwss <= q.size)
    ensures q.Wss() < 0x1_0000_0000 ==> (Reach(q) <= q.size <==> RoundDown(q.Wss(), q.iosize) <= q.size)
  {
    ReachIs(q);
    forall raw: nat | raw <= RANDMAX64
      ensures RandomNo(RANDMAX64, raw, q.Wss(), q.iosize).value + q.iosize <= Reach(q)
    {
      Monotone(RANDMAX64, raw, RANDMAX64, q.Wss(), q.iosize);
    }
    Fits(RANDMAX64, RANDMAX64, q.Wss(), q.iosize);
    if q.Wss() % q.iosize == 0 {
      ReachesEnd(q);
    }
  }

  lemma ReachesEnd(q: Request)
    requires q.Representable() && 0 < q.iosize <= q.Wss() && q.Wss() % q.iosize == 0
    ensures Reach(q) == q.Wss()
  {
    var w, s := q.Wss(), q.iosize;
    Fits(RANDMAX64, RANDMAX64, w, s);
    if s < w {
      var k := w / s;
      GoesAtLeast(w, s, 1);
      OneLess(w, s);
      var raw := Reached(RANDMAX64, w, s, k - 1);
      Monotone(RANDMAX64, raw, RANDMAX64, w, s);
    }
  }

  /** The entry index that fileset_pick draws is one of the set's, and each entry but the last is
      drawn for the same number of raw numbers. */
  lemma FairIndex(raw: nat, entries: nat, k: nat)
    requires raw <= RANDMAX64 && 0 < entries <= RANDMAX64 && k < entries
    ensures RandomNo(RANDMAX64, raw, entries, 1).Chosen? && RandomNo(RANDMAX64, raw, entries, 1).value < entries
    ensures k < entries - 1 ==>
      (RandomNo(RANDMAX64, raw, entries, 1) == Chosen(k)
       <==> k * Quotient(RANDMAX64, entries - 1) <= raw < (k + 1) * Quotient(RANDMAX64, entries - 1))
  {
    Fits(RANDMAX64, raw, entries, 1);
    if k < entries - 1 {
      ShareOf(RANDMAX64, raw, entries, 1, k);
    }
  }
}
