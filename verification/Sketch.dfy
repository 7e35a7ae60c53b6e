/**
 The windowed count-min sketch (internal/admission/sketch.go) against the log of recorded operations.

 The hash is any function of the key and the row; counters are 32-bit and wrap. The flat table of the
 source is indexed here by row and slot.
 */
module Sketch {
  import opened Common
  import opened SliceRing

  const TWO_32: nat := 0x1_0000_0000

  /** A minute in nanoseconds. */
  const MINUTE: nat := 60_000_000_000

  /** Non-positive options take their default. */
  function OrDefault(given: int, fallback: nat): (v: nat)
    requires fallback > 0
    ensures v > 0
  {
    if given <= 0 then fallback else given
  }

  function SliceOf(window: nat, n: nat): (slice: nat)
    requires window >= n > 0
    ensures slice > 0
  {
    window / n
  }

  datatype Op = Op(key: string, isRead: bool)

  datatype Shape = Shape(width: nat, depth: nat, hash: (string, nat) -> nat)

  /** cell: a key's slot in one hash row. The 31-bit mask on it changes nothing for tables that fit in memory. */
  function Cell(sh: Shape, key: string, row: nat): (slot: nat)
    requires sh.width > 0
    ensures slot < sh.width
  {
    sh.hash(key, row) % sh.width
  }

  // ---- which operations a counter counts ----

  function Touches(sh: Shape, row: nat, slot: nat, isRead: bool): Op -> bool
    requires sh.width > 0
  {
    (o: Op) => o.isRead == isRead && Cell(sh, o.key, row) == slot
  }

  function Is(key: string, isRead: bool): Op -> bool { (o: Op) => o == Op(key, isRead) }

  predicate Any(o: Op) { true }

  lemma {:induction false} CountImplies<T>(xs: seq<T>, p: T -> bool, q: T -> bool)
    requires forall i :: 0 <= i < |xs| && p(xs[i]) ==> q(xs[i])
    ensures Count(xs, p) <= Count(xs, q)
  {
    if xs != [] {
      CountImplies(xs[..|xs| - 1], p, q);
    }
  }

  /** One 32-bit counter of one slice. */
  function Counter(sh: Shape, items: seq<Op>, isRead: bool, row: nat, slot: nat): nat
    requires sh.width > 0
  {
    Count(items, Touches(sh, row, slot, isRead)) % TWO_32
  }

  lemma WrapAdd(a: nat, b: nat)
    ensures (a % TWO_32 + b) % TWO_32 == (a + b) % TWO_32
  {
  }

  /** One more operation moves exactly its own kind's counter, in its own cell. */
  lemma CounterSnoc(sh: Shape, items: seq<Op>, o: Op, isRead: bool, row: nat, slot: nat)
    requires sh.width > 0
    ensures Counter(sh, items + [o], isRead, row, slot)
            == if o.isRead == isRead && Cell(sh, o.key, row) == slot
               then (Counter(sh, items, isRead, row, slot) + 1) % TWO_32 else Counter(sh, items, isRead, row, slot)
  {
    CountSnoc(items, o, Touches(sh, row, slot, isRead));
    WrapAdd(Count(items, Touches(sh, row, slot, isRead)), 1);
  }

  // ---- the estimate, over the items of the slots ----

  /** The minimum over the first `rows` hash rows of one slice's counters. */
  function SliceMin(sh: Shape, items: seq<Op>, key: string, isRead: bool, rows: nat): nat
    requires sh.width > 0
  {
    if rows == 0 then TWO_32 - 1
    else Min(SliceMin(sh, items, key, isRead, rows - 1),
             Counter(sh, items, isRead, rows - 1, Cell(sh, key, rows - 1)))
  }

  function Estimate(sh: Shape, slots: seq<seq<Op>>, key: string, isRead: bool): nat
    requires sh.width > 0
  {
    if slots == [] then 0
    else Estimate(sh, slots[..|slots| - 1], key, isRead) + SliceMin(sh, slots[|slots| - 1], key, isRead, sh.depth)
  }

  lemma EstimateNext(sh: Shape, slots: seq<seq<Op>>, key: string, isRead: bool, b: nat)
    requires sh.width > 0 && b < |slots|
    ensures Estimate(sh, slots[..b + 1], key, isRead) % TWO_32
            == (Estimate(sh, slots[..b], key, isRead) % TWO_32 + SliceMin(sh, slots[b], key, isRead, sh.depth)) % TWO_32
  {
    assert slots[..b + 1][..b] == slots[..b];
    WrapAdd(Estimate(sh, slots[..b], key, isRead), SliceMin(sh, slots[b], key, isRead, sh.depth));
  }

  lemma {:induction false} SliceMinBounds(sh: Shape, items: seq<Op>, key: string, isRead: bool, rows: nat)
    requires sh.width > 0 && Count(items, Any) < TWO_32
    ensures Count(items, Is(key, isRead)) <= SliceMin(sh, items, key, isRead, rows)
    ensures forall d :: 0 <= d < rows ==>
              SliceMin(sh, items, key, isRead, rows) <= Count(items, Touches(sh, d, Cell(sh, key, d), isRead))
  {
    CountImplies(items, Is(key, isRead), Any);
    if rows > 0 {
      SliceMinBounds(sh, items, key, isRead, rows - 1);
      CounterBounds(sh, items, key, isRead, rows - 1);
    }
  }

  /** A counter that has not wrapped is at least the key's own count. */
  lemma CounterBounds(sh: Shape, items: seq<Op>, key: string, isRead: bool, row: nat)
    requires sh.width > 0 && Count(items, Any) < TWO_32
    ensures var slot := Cell(sh, key, row);
            Counter(sh, items, isRead, row, slot) == Count(items, Touches(sh, row, slot, isRead)) >= Count(items, Is(key, isRead))
  {
    var touches := Touches(sh, row, Cell(sh, key, row), isRead);
    CountImplies(items, Is(key, isRead), touches);
    CountImplies(items, touches, Any);
  }

  /** Over the whole ring: never under the key's own count, never over any one row's count. */
  lemma {:induction false} EstimateBounds(sh: Shape, slots: seq<seq<Op>>, key: string, isRead: bool, row: nat)
    requires sh.width > 0 && row < sh.depth && SumCounts(slots, Any) < TWO_32
    ensures SumCounts(slots, Is(key, isRead)) <= Estimate(sh, slots, key, isRead)
    ensures Estimate(sh, slots, key, isRead) <= SumCounts(slots, Touches(sh, row, Cell(sh, key, row), isRead))
    ensures SumCounts(slots, Touches(sh, row, Cell(sh, key, row), isRead)) <= SumCounts(slots, Any)
  {
    if slots != [] {
      EstimateBounds(sh, slots[..|slots| - 1], key, isRead, row);
      SliceMinBounds(sh, slots[|slots| - 1], key, isRead, sh.depth);
      CountImplies(slots[|slots| - 1], Touches(sh, row, Cell(sh, key, row), isRead), Any);
    }
  }

  /**
   The sketch's promise. At instant t, with fewer than 2^32 operations in the window, the estimate is at
   least the key's true number of operations of age up to (buckets - 1) slices, and never counts an
   operation of age buckets * slice or more: it is at most the number of younger operations that share
   the key's cell in whichever row one looks.
   */
  lemma EstimateBrackets(sh: Shape, r: Ring<Op>, slice: int, log: seq<Timed<Op>>, t: int,
                         key: string, isRead: bool, row: nat)
    requires sh.width > 0 && row < sh.depth
    requires Tracks(r, slice, log, t) && t < r.headStart + slice
    requires CountIn(log, t - |r.slots| * slice + 1, t + 1, Any) < TWO_32
    ensures CountIn(log, t - (|r.slots| - 1) * slice, t + 1, Is(key, isRead)) <= Estimate(sh, r.slots, key, isRead)
    ensures Estimate(sh, r.slots, key, isRead)
            <= CountIn(log, t - |r.slots| * slice + 1, t + 1, Touches(sh, row, Cell(sh, key, row), isRead))
    ensures Estimate(sh, r.slots, key, isRead) < TWO_32
  {
    WindowBounds(r, slice, log, t, Any);
    WindowBounds(r, slice, log, t, Is(key, isRead));
    WindowBounds(r, slice, log, t, Touches(sh, row, Cell(sh, key, row), isRead));
    EstimateBounds(sh, r.slots, key, isRead, row);
  }

  /** In some row no other key of the window hashes to the key's residue. */
  ghost predicate Alone(sh: Shape, items: seq<Op>, key: string)
    requires sh.width > 0
  {
    exists d :: 0 <= d < sh.depth &&
      forall i :: 0 <= i < |items| && items[i].key != key ==> sh.hash(items[i].key, d) % sh.width != sh.hash(key, d) % sh.width
  }

  /** Only collisions in every row make the estimate too large: a key alone in one row is counted by its own operations. */
  lemma AloneIsExact(sh: Shape, r: Ring<Op>, slice: int, log: seq<Timed<Op>>, t: int, key: string, isRead: bool)
    requires sh.width > 0 && Tracks(r, slice, log, t) && t < r.headStart + slice
    requires CountIn(log, t - |r.slots| * slice + 1, t + 1, Any) < TWO_32
    requires Alone(sh, Items(log, t - |r.slots| * slice + 1, t + 1), key)
    ensures CountIn(log, t - (|r.slots| - 1) * slice, t + 1, Is(key, isRead))
            <= Estimate(sh, r.slots, key, isRead)
            <= CountIn(log, t - |r.slots| * slice + 1, t + 1, Is(key, isRead))
  {
    var items := Items(log, t - |r.slots| * slice + 1, t + 1);
    var d :| 0 <= d < sh.depth &&
      forall i :: 0 <= i < |items| && items[i].key != key ==> sh.hash(items[i].key, d) % sh.width != sh.hash(key, d) % sh.width;
    EstimateBrackets(sh, r, slice, log, t, key, isRead, d);
    CountImplies(items, Touches(sh, d, Cell(sh, key, d), isRead), Is(key, isRead));
  }

  /** EstimateBrackets, for every row at once and for the 32-bit sum that is returned. */
  ghost predicate Bracketed(sh: Shape, log: seq<Timed<Op>>, slice: int, size: nat, t: int,
                            key: string, isRead: bool, estimate: nat)
    requires sh.width > 0
  {
    CountIn(log, t - size * slice + 1, t + 1, Any) < TWO_32 ==>
      && CountIn(log, t - (size - 1) * slice, t + 1, Is(key, isRead)) <= estimate
      && forall d :: 0 <= d < sh.depth ==>
           estimate <= CountIn(log, t - size * slice + 1, t + 1, Touches(sh, d, Cell(sh, key, d), isRead))
  }

  lemma EstimateIsBracketed(sh: Shape, r: Ring<Op>, slice: int, log: seq<Timed<Op>>, t: int, key: string, isRead: bool)
    requires sh.width > 0 && sh.depth > 0
    requires Tracks(r, slice, log, t) && t < r.headStart + slice
    ensures Bracketed(sh, log, slice, |r.slots|, t, key, isRead, Estimate(sh, r.slots, key, isRead) % TWO_32)
  {
    if CountIn(log, t - |r.slots| * slice + 1, t + 1, Any) < TWO_32 {
      EstimateBrackets(sh, r, slice, log, t, key, isRead, 0);
      forall d | 0 <= d < sh.depth
        ensures Estimate(sh, r.slots, key, isRead)
                <= CountIn(log, t - |r.slots| * slice + 1, t + 1, Touches(sh, d, Cell(sh, key, d), isRead))
      {
        EstimateBrackets(sh, r, slice, log, t, key, isRead, d);
      }
    }
  }

  // ---- the sketch ----

  class Sketch {
    const shape: Shape
    const buckets: nat
    const slice: int
    const reads': array3<nat>
    const writes: array3<nat>
    var head: nat
    var headStart: int

    ghost var ring: Ring<Op>
    ghost var log: seq<Timed<Op>>
    ghost var seen: int

    ghost predicate Sized()
      reads this
    {
      && shape.width > 0 && shape.depth > 0 && buckets > 0 && slice > 0 && reads' != writes
      && reads'.Length0 == writes.Length0 == buckets
      && reads'.Length1 == writes.Length1 == shape.depth
      && reads'.Length2 == writes.Length2 == shape.width
    }

    /** Each counter is the number of operations of its slice that touch it, as 32 bits hold it. */
    ghost predicate Tallies(table: array3<nat>, isRead: bool, slots: seq<seq<Op>>)
      requires Sized() && table.Length0 == buckets && table.Length1 == shape.depth && table.Length2 == shape.width
      reads this, table
    {
      && |slots| == buckets
      && forall b, d, w :: 0 <= b < buckets && 0 <= d < shape.depth && 0 <= w < shape.width ==>
           table[b, d, w] == Counter(shape, slots[b], isRead, d, w)
    }

    ghost predicate Matches()
      reads this, reads', writes
    {
      Sized() && ring.head == head < buckets && Tallies(reads', true, ring.slots) && Tallies(writes, false, ring.slots)
    }

    ghost predicate Valid()
      reads this, reads', writes
    {
      Matches() && ring.headStart == headStart && Tracks(ring, slice, log, seen)
    }

    /** NewSketch. A window shorter than one nanosecond per bucket divides by zero when it rolls, so it is excluded. */
    constructor (hash: (string, nat) -> nat, width: int, depth: int, window: int, n: int, now: int)
      requires OrDefault(window, MINUTE) >= OrDefault(n, 6)
      ensures Valid() && log == [] && seen == now
      ensures shape == Shape(OrDefault(width, 4096), OrDefault(depth, 4), hash)
      ensures buckets == OrDefault(n, 6) && slice == SliceOf(OrDefault(window, MINUTE), OrDefault(n, 6))
    {
      var w, d, b := OrDefault(width, 4096), OrDefault(depth, 4), OrDefault(n, 6);
      var length := SliceOf(OrDefault(window, MINUTE), b);
      shape, buckets, slice := Shape(w, d, hash), b, length;
      reads' := new nat[b, d, w];
      writes := new nat[b, d, w];
      log := [];
      new;
      EmptyTracks<Op>(b, slice, now);
      ClearAll(now);
    }

    /** clear, on both tables of one bucket. */
    method ClearBucket(b: nat)
      requires Sized() && b < buckets
      modifies reads', writes
      ensures forall b', d, w :: 0 <= b' < buckets && 0 <= d < shape.depth && 0 <= w < shape.width ==>
                && reads'[b', d, w] == (if b' == b then 0 else old(reads'[b', d, w]))
                && writes[b', d, w] == (if b' == b then 0 else old(writes[b', d, w]))
    {
      forall d, w | 0 <= d < shape.depth && 0 <= w < shape.width {
        reads'[b, d, w] := 0;
      }
      forall d, w | 0 <= d < shape.depth && 0 <= w < shape.width {
        writes[b, d, w] := 0;
      }
    }

    method AdvanceHead(steps: nat)
      requires Matches()
      modifies this`head, this`ring, reads', writes
      ensures Matches() && ring == AdvanceBy(old(ring), slice, steps)
    {
      for n := 0 to steps
        invariant Matches() && ring == AdvanceBy(old(ring), slice, n)
      {
        NextHeadIsModular(head, buckets);
        head := (head + 1) % buckets;
        ClearBucket(head);
        ring := Advance(ring, slice);
      }
    }

    method ClearAll(start: int)
      requires Sized() && Tracks(Cleared<Op>(buckets, start), slice, log, start)
      modifies this`head, this`headStart, this`ring, this`seen, reads', writes
      ensures Valid() && seen == start && ring == Cleared(buckets, start)
    {
      for b := 0 to buckets
        invariant forall b', d, w :: 0 <= b' < b && 0 <= d < shape.depth && 0 <= w < shape.width ==>
                    reads'[b', d, w] == 0 && writes[b', d, w] == 0
      {
        ClearBucket(b);
      }
      head, headStart := 0, start;
      ring, seen := Cleared(buckets, start), start;
    }

    method Roll(now: int, again: int)
      requires Valid() && seen <= now <= again
      modifies this`head, this`headStart, this`ring, this`seen, reads', writes
      ensures Valid() && seen == Instant(old(ring), slice, now, again) < headStart + slice
      ensures ring == SliceRing.Roll(old(ring), slice, now, again)
    {
      RollTracks(ring, slice, log, seen, now, again);
      var elapsed := now - headStart;
      if elapsed < slice {
        seen := now;
        return;
      }
      var steps := elapsed / slice;
      if steps >= buckets {
        ClearAll(again);
        return;
      }
      RolledStart(ring, slice, log, seen, now);
      AdvanceHead(steps);
      headStart := headStart + steps * slice;
      seen := now;
    }

    /** Count one operation in every hash row of the head bucket. */
    method Bump(table: array3<nat>, key: string, isRead: bool)
      requires Sized() && head < buckets && |ring.slots| == buckets
      requires table.Length0 == buckets && table.Length1 == shape.depth && table.Length2 == shape.width
      requires Tallies(table, isRead, ring.slots)
      modifies table
      ensures Tallies(table, isRead, ring.slots[head := ring.slots[head] + [Op(key, isRead)]])
    {
      BumpRows(table, key);
      ghost var items, o := ring.slots[head], Op(key, isRead);
      forall d, w | 0 <= d < shape.depth && 0 <= w < shape.width
        ensures table[head, d, w] == Counter(shape, items + [o], isRead, d, w)
      {
        CounterSnoc(shape, items, o, isRead, d, w);
      }
    }

    method BumpRows(table: array3<nat>, key: string)
      requires Sized() && head < buckets
      requires table.Length0 == buckets && table.Length1 == shape.depth && table.Length2 == shape.width
      modifies table
      ensures forall b, e, w :: 0 <= b < buckets && 0 <= e < shape.depth && 0 <= w < shape.width ==>
                table[b, e, w] == if b == head && w == Cell(shape, key, e)
                                  then (old(table[b, e, w]) + 1) % TWO_32 else old(table[b, e, w])
    {
      for d := 0 to shape.depth
        invariant forall b, e, w :: 0 <= b < buckets && 0 <= e < shape.depth && 0 <= w < shape.width ==>
                    table[b, e, w] == if b == head && e < d && w == Cell(shape, key, e)
                                      then (old(table[b, e, w]) + 1) % TWO_32 else old(table[b, e, w])
      {
        var c := Cell(shape, key, d);
        table[head, d, c] := (table[head, d, c] + 1) % TWO_32;
      }
    }

    /** record. */
    method RecordOp(key: string, isRead: bool, now: int, again: int)
      requires Valid() && seen <= now <= again
      modifies this, reads', writes
      ensures Valid() && log == old(log) + [Timed(seen, Op(key, isRead))] && seen == Instant(old(ring), slice, now, again)
    {
      Roll(now, again);
      RecordTracks(ring, slice, log, seen, Op(key, isRead));
      OtherTable(ring.slots[head], key, isRead, !isRead);
      if isRead {
        Bump(reads', key, true);
      } else {
        Bump(writes, key, false);
      }
      log := log + [Timed(seen, Op(key, isRead))];
      ring := Record(ring, Op(key, isRead));
    }

    /** An operation of one kind leaves the other kind's counters alone. */
    lemma OtherTable(items: seq<Op>, key: string, isRead: bool, other: bool)
      requires Sized() && other != isRead
      ensures forall d, w :: 0 <= d < shape.depth && 0 <= w < shape.width ==>
                Counter(shape, items + [Op(key, isRead)], other, d, w) == Counter(shape, items, other, d, w)
    {
      forall d, w | 0 <= d < shape.depth && 0 <= w < shape.width
        ensures Counter(shape, items + [Op(key, isRead)], other, d, w) == Counter(shape, items, other, d, w)
      {
        CounterSnoc(shape, items, Op(key, isRead), other, d, w);
      }
    }

    method BucketMin(table: array3<nat>, b: nat, key: string, isRead: bool) returns (min: nat)
      requires Sized() && table.Length0 == buckets && table.Length1 == shape.depth && table.Length2 == shape.width
      requires b < buckets && Tallies(table, isRead, ring.slots)
      ensures min == SliceMin(shape, ring.slots[b], key, isRead, shape.depth)
    {
      min := TWO_32 - 1;
      for d := 0 to shape.depth
        invariant min == SliceMin(shape, ring.slots[b], key, isRead, d)
      {
        var v := table[b, d, Cell(shape, key, d)];
        if v < min {
          min := v;
        }
      }
    }

    /** estimateLocked: a minimum per bucket, a 32-bit sum over them. */
    method EstimateTable(table: array3<nat>, key: string, isRead: bool) returns (total: nat)
      requires Sized() && table.Length0 == buckets && table.Length1 == shape.depth && table.Length2 == shape.width
      requires Tallies(table, isRead, ring.slots)
      ensures total == Estimate(shape, ring.slots, key, isRead) % TWO_32
    {
      total := 0;
      for b := 0 to buckets
        invariant total == Estimate(shape, ring.slots[..b], key, isRead) % TWO_32
      {
        var min := BucketMin(table, b, key, isRead);
        EstimateNext(shape, ring.slots, key, isRead, b);
        total := (total + min) % TWO_32;
      }
      assert ring.slots[..buckets] == ring.slots;
    }

    /** Counts, with what EstimateBrackets says of each half. */
    method Counts(key: string, now: int, again: int) returns (r: nat, w: nat)
      requires Valid() && seen <= now <= again
      modifies this`head, this`headStart, this`ring, this`seen, reads', writes
      ensures Valid() && seen == Instant(old(ring), slice, now, again)
      ensures Bracketed(shape, log, slice, buckets, seen, key, true, r)
      ensures Bracketed(shape, log, slice, buckets, seen, key, false, w)
    {
      Roll(now, again);
      r := EstimateTable(reads', key, true);
      w := EstimateTable(writes, key, false);
      EstimateIsBracketed(shape, ring, slice, log, seen, key, true);
      EstimateIsBracketed(shape, ring, slice, log, seen, key, false);
    }
  }
}
