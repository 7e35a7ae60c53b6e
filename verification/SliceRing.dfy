/**
 The ring of time slices under both the circuit breaker (internal/breaker/breaker.go, rollLocked) and the
 admission sketch (internal/admission/sketch.go, rollLocked), against the log of everything recorded.

 A slot here holds the items themselves; the two users keep counters of them. A call reads the wall clock
 once, and a second time when the whole window has passed; `now` and `again` are those readings.
 */
module SliceRing {

  datatype Timed<T> = Timed(at: int, item: T)

  datatype Ring<T> = Ring(slots: seq<seq<T>>, head: nat, headStart: int)

  function NextHead(head: nat, size: nat): nat
    requires head < size
  {
    if head + 1 == size then 0 else head + 1
  }

  lemma NextHeadIsModular(head: nat, size: nat)
    requires head < size
    ensures (head + 1) % size == NextHead(head, size)
  {
  }

  /** The slot j slices behind the head. */
  function Back(head: nat, j: nat, size: nat): (i: nat)
    requires head < size && j < size
    ensures i < size
  {
    if j <= head then head - j else head + size - j
  }

  function Advance<T>(r: Ring<T>, slice: int): Ring<T>
    requires r.head < |r.slots|
  {
    var head := NextHead(r.head, |r.slots|);
    Ring(r.slots[head := []], head, r.headStart + slice)
  }

  function AdvanceBy<T>(r: Ring<T>, slice: int, steps: nat): (r': Ring<T>)
    requires r.head < |r.slots|
    ensures |r'.slots| == |r.slots| && r'.head < |r'.slots|
  {
    if steps == 0 then r else Advance(AdvanceBy(r, slice, steps - 1), slice)
  }

  function Cleared<T>(size: nat, start: int): Ring<T> {
    Ring(seq(size, _ => []), 0, start)
  }

  predicate Expired<T>(r: Ring<T>, slice: int, now: int)
    requires slice > 0
  {
    now - r.headStart >= slice && (now - r.headStart) / slice >= |r.slots|
  }

  function Roll<T>(r: Ring<T>, slice: int, now: int, again: int): (r': Ring<T>)
    requires slice > 0 && r.head < |r.slots|
    ensures |r'.slots| == |r.slots| && r'.head < |r'.slots|
  {
    if now - r.headStart < slice then r
    else if Expired(r, slice, now) then Cleared(|r.slots|, again)
    else AdvanceBy(r, slice, (now - r.headStart) / slice)
  }

  /** The time a call acts at: its last reading of the clock. */
  function Instant<T>(r: Ring<T>, slice: int, now: int, again: int): int
    requires slice > 0
  {
    if Expired(r, slice, now) then again else now
  }

  function Record<T>(r: Ring<T>, x: T): Ring<T>
    requires r.head < |r.slots|
  {
    r.(slots := r.slots[r.head := r.slots[r.head] + [x]])
  }

  // ---- what the ring knows, in terms of the log ----

  function Items<T>(log: seq<Timed<T>>, lo: int, hi: int): seq<T> {
    if log == [] then []
    else
      var init, last := Items(log[..|log| - 1], lo, hi), log[|log| - 1];
      if lo <= last.at < hi then init + [last.item] else init
  }

  /** Slot j holds exactly what was recorded in the j-th slice back; `seen` is the last instant acted at. */
  ghost predicate Tracks<T>(r: Ring<T>, slice: int, log: seq<Timed<T>>, seen: int) {
    && slice > 0 && r.head < |r.slots| && r.headStart <= seen
    && (forall i :: 0 <= i < |log| ==> log[i].at <= seen && log[i].at < r.headStart + slice)
    && forall j :: 0 <= j < |r.slots| ==>
         r.slots[Back(r.head, j, |r.slots|)] == Items(log, r.headStart - j * slice, r.headStart - j * slice + slice)
  }

  lemma {:induction false} NothingThere<T>(log: seq<Timed<T>>, lo: int, hi: int)
    requires forall i :: 0 <= i < |log| ==> log[i].at < lo
    ensures Items(log, lo, hi) == []
  {
    if log != [] {
      NothingThere(log[..|log| - 1], lo, hi);
    }
  }

  lemma AdvanceTracks<T>(r: Ring<T>, slice: int, log: seq<Timed<T>>, seen: int)
    requires Tracks(r, slice, log, seen) && r.headStart + slice <= seen
    ensures Tracks(Advance(r, slice), slice, log, seen)
  {
    var size, r' := |r.slots|, Advance(r, slice);
    forall j | 0 <= j < size
      ensures r'.slots[Back(r'.head, j, size)] == Items(log, r'.headStart - j * slice, r'.headStart - j * slice + slice)
    {
      if j == 0 {
        NothingThere(log, r'.headStart, r'.headStart + slice);
      } else {
        assert Back(r'.head, j, size) == Back(r.head, j - 1, size) != r'.head;
        assert r'.headStart - j * slice == r.headStart - (j - 1) * slice;
      }
    }
  }

  lemma {:induction false} AdvanceByTracks<T>(r: Ring<T>, slice: int, log: seq<Timed<T>>, seen: int, steps: nat)
    requires Tracks(r, slice, log, seen) && r.headStart + steps * slice <= seen
    ensures Tracks(AdvanceBy(r, slice, steps), slice, log, seen)
    ensures AdvanceBy(r, slice, steps).headStart == r.headStart + steps * slice
  {
    if steps > 0 {
      assert r.headStart + (steps - 1) * slice + slice == r.headStart + steps * slice;
      AdvanceByTracks(r, slice, log, seen, steps - 1);
      AdvanceTracks(AdvanceBy(r, slice, steps - 1), slice, log, seen);
    }
  }

  lemma MulMonotone(a: int, b: int, c: int)
    requires a <= b && c >= 0
    ensures a * c <= b * c
  {
  }

  /** When the window has passed, every logged item is older than the oldest slice of a ring started at `again`. */
  lemma ExpiredIsOld<T>(r: Ring<T>, slice: int, now: int, again: int, j: nat)
    requires slice > 0 && now <= again && j < |r.slots| && Expired(r, slice, now)
    ensures again - j * slice >= r.headStart + slice
  {
    var elapsed := now - r.headStart;
    var steps := elapsed / slice;
    assert elapsed >= steps * slice;
    MulMonotone(j + 1, steps, slice);
    assert (j + 1) * slice == j * slice + slice;
  }

  lemma EmptyTracks<T>(size: nat, slice: int, start: int)
    requires size > 0 && slice > 0
    ensures Tracks(Cleared<T>(size, start), slice, [], start)
  {
  }

  lemma ClearedTracks<T>(r: Ring<T>, slice: int, log: seq<Timed<T>>, seen: int, now: int, again: int)
    requires Tracks(r, slice, log, seen) && seen <= now <= again && Expired(r, slice, now)
    ensures Tracks(Cleared<T>(|r.slots|, again), slice, log, again)
  {
    var size := |r.slots|;
    forall j | 0 <= j < size
      ensures Items(log, again - j * slice, again - j * slice + slice) == []
    {
      ExpiredIsOld(r, slice, now, again, j);
      NothingThere(log, again - j * slice, again - j * slice + slice);
    }
  }

  /** Rolling keeps the ring in step with the log, through every branch, and brings the head up to date. */
  lemma RollTracks<T>(r: Ring<T>, slice: int, log: seq<Timed<T>>, seen: int, now: int, again: int)
    requires Tracks(r, slice, log, seen) && seen <= now <= again
    ensures var r', t := Roll(r, slice, now, again), Instant(r, slice, now, again);
            Tracks(r', slice, log, t) && r'.headStart <= t < r'.headStart + slice && seen <= t
  {
    if now - r.headStart < slice {
      LaterTracks(r, slice, log, seen, now);
    } else if Expired(r, slice, now) {
      ClearedTracks(r, slice, log, seen, now, again);
    } else {
      LaterTracks(r, slice, log, seen, now);
      PartialRollTracks(r, slice, log, now);
    }
  }

  /** Time passing alone keeps the ring in step. */
  lemma LaterTracks<T>(r: Ring<T>, slice: int, log: seq<Timed<T>>, seen: int, now: int)
    requires Tracks(r, slice, log, seen) && seen <= now
    ensures Tracks(r, slice, log, now)
  {
  }

  lemma PartialRollTracks<T>(r: Ring<T>, slice: int, log: seq<Timed<T>>, now: int)
    requires Tracks(r, slice, log, now) && now - r.headStart >= slice
    ensures var r' := AdvanceBy(r, slice, (now - r.headStart) / slice);
            Tracks(r', slice, log, now) && r'.headStart <= now < r'.headStart + slice
  {
    DivisionBounds(now - r.headStart, slice);
    AdvanceByTracks(r, slice, log, now, (now - r.headStart) / slice);
  }

  /** Where a partial roll leaves the head. */
  lemma RolledStart<T>(r: Ring<T>, slice: int, log: seq<Timed<T>>, seen: int, now: int)
    requires Tracks(r, slice, log, seen) && seen <= now && now - r.headStart >= slice
    ensures var steps := (now - r.headStart) / slice;
            AdvanceBy(r, slice, steps).headStart == r.headStart + steps * slice
  {
    LaterTracks(r, slice, log, seen, now);
    DivisionBounds(now - r.headStart, slice);
    AdvanceByTracks(r, slice, log, now, (now - r.headStart) / slice);
  }

  lemma DivisionBounds(a: int, b: int)
    requires b > 0
    ensures a / b * b <= a < a / b * b + b
  {
  }

  lemma RecordTracks<T>(r: Ring<T>, slice: int, log: seq<Timed<T>>, t: int, x: T)
    requires Tracks(r, slice, log, t) && t < r.headStart + slice
    ensures Tracks(Record(r, x), slice, log + [Timed(t, x)], t)
  {
    var log' := log + [Timed(t, x)];
    assert log'[..|log|] == log;
    forall j | 0 <= j < |r.slots|
      ensures Record(r, x).slots[Back(r.head, j, |r.slots|)]
              == Items(log', r.headStart - j * slice, r.headStart - j * slice + slice)
    {
      if j > 0 {
        assert Back(r.head, j, |r.slots|) != r.head;
        assert r.headStart - j * slice + slice <= r.headStart by { assert j * slice >= slice; }
      }
    }
  }

  // ---- counting ----

  function Count<T>(xs: seq<T>, p: T -> bool): nat {
    if xs == [] then 0 else Count(xs[..|xs| - 1], p) + (if p(xs[|xs| - 1]) then 1 else 0)
  }

  /** How many logged items in a stretch of time satisfy p. */
  function CountIn<T>(log: seq<Timed<T>>, lo: int, hi: int, p: T -> bool): nat {
    Count(Items(log, lo, hi), p)
  }

  function SumCounts<T>(slots: seq<seq<T>>, p: T -> bool): nat {
    if slots == [] then 0 else SumCounts(slots[..|slots| - 1], p) + Count(slots[|slots| - 1], p)
  }

  lemma CountSnoc<T>(xs: seq<T>, x: T, p: T -> bool)
    ensures Count(xs + [x], p) == Count(xs, p) + (if p(x) then 1 else 0)
  {
    assert (xs + [x])[..|xs|] == xs;
  }

  lemma {:induction false} CountSplits<T>(log: seq<Timed<T>>, lo: int, mid: int, hi: int, p: T -> bool)
    requires lo <= mid <= hi
    ensures CountIn(log, lo, hi, p) == CountIn(log, lo, mid, p) + CountIn(log, mid, hi, p)
  {
    if log != [] {
      var init, last := log[..|log| - 1], log[|log| - 1];
      CountSplits(init, lo, mid, hi, p);
      CountSnoc(Items(init, lo, hi), last.item, p);
      CountSnoc(Items(init, lo, mid), last.item, p);
      CountSnoc(Items(init, mid, hi), last.item, p);
    }
  }

  /** The counts of slots lo..hi, summed. */
  function SumRange<T>(slots: seq<seq<T>>, lo: nat, hi: nat, p: T -> bool): nat
    requires lo <= hi <= |slots|
    decreases hi - lo
  {
    if lo == hi then 0 else SumRange(slots, lo, hi - 1, p) + Count(slots[hi - 1], p)
  }

  lemma {:induction false} SumRangeIsSum<T>(slots: seq<seq<T>>, n: nat, p: T -> bool)
    requires n <= |slots|
    ensures SumRange(slots, 0, n, p) == SumCounts(slots[..n], p)
  {
    if n > 0 {
      SumRangeIsSum(slots, n - 1, p);
      assert slots[..n][..n - 1] == slots[..n - 1];
    }
  }

  lemma {:induction false} SumRangeSplits<T>(slots: seq<seq<T>>, lo: nat, mid: nat, hi: nat, p: T -> bool)
    requires lo <= mid <= hi <= |slots|
    ensures SumRange(slots, lo, hi, p) == SumRange(slots, lo, mid, p) + SumRange(slots, mid, hi, p)
    decreases hi - mid
  {
    if mid < hi {
      SumRangeSplits(slots, lo, mid, hi - 1, p);
    }
  }

  /** The m newest slots, summed in age order, wherever the ring wraps. */
  lemma {:induction false} NewestSum<T>(r: Ring<T>, slice: int, log: seq<Timed<T>>, seen: int, m: nat, p: T -> bool)
    requires Tracks(r, slice, log, seen) && m <= |r.slots|
    ensures var size := |r.slots|;
            (if m <= r.head + 1 then SumRange(r.slots, r.head + 1 - m, r.head + 1, p)
             else SumRange(r.slots, 0, r.head + 1, p) + SumRange(r.slots, r.head + 1 + size - m, size, p))
            == CountIn(log, r.headStart - (m - 1) * slice, r.headStart + slice, p)
  {
    var size := |r.slots|;
    if m == 0 {
      NothingThere(log, r.headStart + slice, r.headStart + slice);
      assert r.headStart - (m - 1) * slice == r.headStart + slice;
    } else {
      NewestSum(r, slice, log, seen, m - 1, p);
      var lo := r.headStart - (m - 1) * slice;
      assert r.headStart - (m - 2) * slice == lo + slice;
      assert lo + slice <= r.headStart + slice by { assert (m - 1) * slice >= 0; }
      CountSplits(log, lo, lo + slice, r.headStart + slice, p);
      var i := Back(r.head, m - 1, size);
      assert r.slots[i] == Items(log, lo, lo + slice);
      if m <= r.head + 1 {
        SumRangeSplits(r.slots, i, i + 1, r.head + 1, p);
      } else {
        SumRangeSplits(r.slots, i, i + 1, size, p);
      }
    }
  }

  /** The ring's total is the log's, cut at the oldest live slice. */
  lemma RingCountsTheLog<T>(r: Ring<T>, slice: int, log: seq<Timed<T>>, seen: int, p: T -> bool)
    requires Tracks(r, slice, log, seen)
    ensures SumCounts(r.slots, p) == CountIn(log, r.headStart - (|r.slots| - 1) * slice, r.headStart + slice, p)
  {
    var size := |r.slots|;
    NewestSum(r, slice, log, seen, size, p);
    SumRangeSplits(r.slots, 0, r.head + 1, size, p);
    SumRangeIsSum(r.slots, size, p);
    assert r.slots[..size] == r.slots;
  }

  /** Counting from earlier on never counts less. */
  lemma CountGrowsBackwards<T>(log: seq<Timed<T>>, lo: int, lo': int, hi: int, p: T -> bool)
    requires lo <= lo' <= hi
    ensures CountIn(log, lo', hi, p) <= CountIn(log, lo, hi, p)
  {
    CountSplits(log, lo, lo', hi, p);
  }

  /**
   The window, both ways. At instant t a ring of B slices counts every item of age up to (B-1) slices, and
   none of age B slices or more.
   */
  lemma WindowBounds<T>(r: Ring<T>, slice: int, log: seq<Timed<T>>, t: int, p: T -> bool)
    requires Tracks(r, slice, log, t) && t < r.headStart + slice
    ensures CountIn(log, t - (|r.slots| - 1) * slice, t + 1, p) <= SumCounts(r.slots, p)
    ensures SumCounts(r.slots, p) <= CountIn(log, t - |r.slots| * slice + 1, t + 1, p)
  {
    var size := |r.slots|;
    var oldest := r.headStart - (size - 1) * slice;
    RingCountsTheLog(r, slice, log, t, p);
    assert oldest <= r.headStart by { assert (size - 1) * slice >= 0; }
    assert size * slice == (size - 1) * slice + slice;
    SameUpTo(log, oldest, t + 1, r.headStart + slice, p);
    CountGrowsBackwards(log, oldest, t - (size - 1) * slice, t + 1, p);
    CountGrowsBackwards(log, t - size * slice + 1, oldest, t + 1, p);
  }

  /** Nothing is logged after the present, so where a count stops does not matter. */
  lemma {:induction false} SameUpTo<T>(log: seq<Timed<T>>, lo: int, hi: int, hi': int, p: T -> bool)
    requires forall i :: 0 <= i < |log| ==> log[i].at < hi && log[i].at < hi'
    ensures CountIn(log, lo, hi, p) == CountIn(log, lo, hi', p) && Items(log, lo, hi) == Items(log, lo, hi')
  {
    if log != [] {
      SameUpTo(log[..|log| - 1], lo, hi, hi', p);
    }
  }
}
