/**
 The proportional circuit breaker (internal/breaker/breaker.go).

 Fractions are real numbers; `None` is the floating-point NaN that 0/0 produces.
 */
module Breaker {
  import opened Common
  import opened SliceRing

  datatype Options = Options(window: int, buckets: int, minRequests: int, failureFloor: real, maxShed: real)

  datatype Complaint = BadWindow | BadBuckets | BadMinRequests | BadFloor | NegativeShed | ShedsEverything

  /** New's checks, in their order. */
  function FirstComplaint(o: Options): (c: Option<Complaint>)
    ensures c.None? <==> Accepted(o)
  {
    if o.window <= 0 then Some(BadWindow)
    else if o.buckets <= 0 then Some(BadBuckets)
    else if o.minRequests < 0 then Some(BadMinRequests)
    else if o.failureFloor < 0.0 || o.failureFloor >= 1.0 then Some(BadFloor)
    else if o.maxShed < 0.0 then Some(NegativeShed)
    else if o.maxShed >= 1.0 then Some(ShedsEverything)
    else None
  }

  /** What New accepts. */
  predicate Accepted(o: Options) {
    && o.window > 0 && o.buckets > 0 && o.minRequests >= 0
    && 0.0 <= o.failureFloor < 1.0 && 0.0 <= o.maxShed < 1.0
  }

  // ---- the shed fraction ----

  function Shed(o: Options, successes: nat, failures: nat): Option<real>
    requires Accepted(o)
  {
    var total := successes + failures;
    if total < o.minRequests then Some(0.0)
    else if total == 0 then None
    else
      var rate := failures as real / total as real;
      if rate <= o.failureFloor then Some(0.0)
      else
        var shed := (rate - o.failureFloor) / (1.0 - o.failureFloor) * o.maxShed;
        Some(if shed > o.maxShed then o.maxShed else shed)
  }

  /** Allow, for one draw of the random source. A comparison with NaN is false. */
  predicate Allow(p: Option<real>, draw: real) {
    p.Some? && (p.value <= 0.0 || draw >= p.value)
  }

  /** The line through the floor: what Shed computes above it. */
  function Line(o: Options, rate: real): real
    requires Accepted(o)
  {
    (rate - o.failureFloor) / (1.0 - o.failureFloor) * o.maxShed
  }

  lemma RateOrder(f: nat, t: nat, f': nat, t': nat)
    requires t > 0 && t' > 0 && f * t' <= f' * t
    ensures f as real / t as real <= f' as real / t' as real
  {
    var a, b, p := f as real / t as real, f' as real / t' as real, t as real * t' as real;
    assert a * t as real == f as real && b * t' as real == f' as real;
    assert (f * t') as real == f as real * t' as real && (f' * t) as real == f' as real * t as real;
    assert a * p == f as real * t' as real && b * p == f' as real * t as real;
    SignOfProduct(b - a, p);
  }

  lemma SignOfProduct(d: real, p: real)
    requires p > 0.0
    ensures d * p >= 0.0 ==> d >= 0.0
  {
  }

  lemma LineOrder(o: Options, rate: real, rate': real)
    requires Accepted(o) && rate <= rate'
    ensures Line(o, rate) <= Line(o, rate')
  {
    var d := 1.0 - o.failureFloor;
    assert (rate - o.failureFloor) / d <= (rate' - o.failureFloor) / d;
  }

  /** The fraction is a number exactly when there is something to divide by, and then it lies in [0, MaxShed]. */
  lemma ShedRange(o: Options, successes: nat, failures: nat)
    requires Accepted(o)
    ensures Shed(o, successes, failures).None? <==> successes + failures == 0 && o.minRequests == 0
    ensures Shed(o, successes, failures).Some? ==> 0.0 <= Shed(o, successes, failures).value <= o.maxShed < 1.0
    ensures Shed(o, successes, 0).Some? ==> Shed(o, successes, 0).value == 0.0
  {
    var total := successes + failures;
    if total > 0 {
      var rate := failures as real / total as real;
      if rate > o.failureFloor {
        LineOrder(o, o.failureFloor, rate);
        assert Line(o, o.failureFloor) == 0.0;
      }
    }
  }

  /** Too little evidence, or a failure rate at or below the floor: nothing is shed, and otherwise something is. */
  lemma ShedsNothingIff(o: Options, successes: nat, failures: nat)
    requires Accepted(o) && successes + failures > 0
    ensures Shed(o, successes, failures) == Some(0.0) <==>
              || o.maxShed == 0.0 || successes + failures < o.minRequests
              || failures as real <= o.failureFloor * (successes + failures) as real
  {
    RateByProduct(failures as real, (successes + failures) as real, o.failureFloor);
    ShedRange(o, successes, failures);
    if successes + failures >= o.minRequests && failures as real > o.failureFloor * (successes + failures) as real {
      ShedIsProportional(o, successes, failures);
    }
  }

  /**
   Above that, the fraction is proportional to the excess over the floor, from nothing at the floor to MaxShed at
   total failure: stated as one equation of products.
   */
  lemma ShedIsProportional(o: Options, successes: nat, failures: nat)
    requires Accepted(o) && successes + failures > 0 && successes + failures >= o.minRequests
    requires failures as real > o.failureFloor * (successes + failures) as real
    ensures Shed(o, successes, failures).Some?
    ensures var total := (successes + failures) as real;
            Shed(o, successes, failures).value * (1.0 - o.failureFloor) * total
            == (failures as real - o.failureFloor * total) * o.maxShed
  {
    var total, f := (successes + failures) as real, failures as real;
    var rate, above := f / total, 1.0 - o.failureFloor;
    RateByProduct(f, total, o.failureFloor);
    RateAtMostOne(successes, failures);
    LineOrder(o, rate, 1.0);
    LineAtOne(o);
    ProductOfLine(o, f, total);
  }

  lemma RateByProduct(f: real, total: real, floor: real)
    requires total > 0.0
    ensures f / total <= floor <==> f <= floor * total
  {
    assert f / total * total == f;
    if f / total <= floor {
      assert (floor - f / total) * total >= 0.0;
    } else {
      assert (f / total - floor) * total > 0.0;
    }
  }

  lemma RateAtMostOne(successes: nat, failures: nat)
    requires successes + failures > 0
    ensures failures as real / (successes + failures) as real <= 1.0
  {
    RateByProduct(failures as real, (successes + failures) as real, 1.0);
  }

  lemma LineAtOne(o: Options)
    requires Accepted(o)
    ensures Line(o, 1.0) == o.maxShed
  {
    SelfQuotient(1.0 - o.failureFloor);
  }

  lemma ProductOfLine(o: Options, f: real, total: real)
    requires Accepted(o) && total > 0.0
    ensures Line(o, f / total) * (1.0 - o.failureFloor) * total == (f - o.failureFloor * total) * o.maxShed
  {
    var rate, above := f / total, 1.0 - o.failureFloor;
    var excess := (rate - o.failureFloor) / above;
    assert excess * above == rate - o.failureFloor;
    assert rate * total == f;
    assert Line(o, rate) * above == (excess * above) * o.maxShed;
    assert (rate - o.failureFloor) * o.maxShed * total == (rate * total - o.failureFloor * total) * o.maxShed;
  }

  lemma CrossProduct(s: nat, f: nat, s': nat, f': nat)
    requires f <= f' && s' <= s
    ensures f * (s' + f') <= f' * (s + f)
  {
    MulMonotone(s', s, f);
    MulMonotone(f, f', s);
    assert f * (s' + f') == s' * f + f * f';
    assert f' * (s + f) == f' * s + f * f';
  }

  /** Shedding never falls when failures rise: by replacing successes with failures, or by adding failures. */
  lemma ShedMonotone(o: Options, s: nat, f: nat, s': nat, f': nat)
    requires Accepted(o) && f <= f' && s' <= s && s + f <= s' + f'
    requires Shed(o, s, f).Some? && Shed(o, s', f').Some?
    ensures Shed(o, s, f).value <= Shed(o, s', f').value
  {
    ShedRange(o, s, f);
    ShedRange(o, s', f');
    if s + f > 0 && s + f >= o.minRequests {
      CrossProduct(s, f, s', f');
      RateOrder(f, s + f, f', s' + f');
      LineOrder(o, f as real / (s + f) as real, f' as real / (s' + f') as real);
    }
  }

  /** A node failing every request sheds MaxShed, so some probe traffic always gets through. */
  lemma TotalFailureShedsMax(o: Options, failures: nat)
    requires Accepted(o) && failures > 0 && failures >= o.minRequests
    ensures Shed(o, 0, failures) == Some(o.maxShed)
    ensures Allow(Shed(o, 0, failures), o.maxShed)
  {
    SelfQuotient(failures as real);
    SelfQuotient(1.0 - o.failureFloor);
    assert Line(o, 1.0) == 1.0 * o.maxShed;
  }

  lemma SelfQuotient(d: real)
    requires d > 0.0
    ensures d / d == 1.0
  {
  }

  /** With nothing counted, MinRequests = 0 makes the fraction 0/0, and a call on it is refused whatever is drawn. */
  lemma EmptyWindowRefusesIffNoThreshold(o: Options, draw: real)
    requires Accepted(o)
    ensures o.minRequests == 0 <==> !Allow(Shed(o, 0, 0), draw)
  {
  }

  // ---- the breaker ----

  datatype Bucket = Bucket(successes: nat, failures: nat)

  predicate IsFailure(failed: bool) { failed }

  predicate IsSuccess(failed: bool) { !failed }

  function Tally(items: seq<bool>): Bucket { Bucket(Count(items, IsSuccess), Count(items, IsFailure)) }

  // ---- calls to one node ----

  /**
   A call to the node: reads and fills ask Allow first, tombstones do not (internal/cache/client.go). `now` and
   `again` are the clock readings of Allow, `done` and `doneAgain` those of recording the outcome, `draw` the
   random draw, and `failed` what the node would answer.
   */
  datatype Call = Call(gated: bool, now: int, again: int, draw: real, done: int, doneAgain: int, failed: bool)

  /** Allow, on a ring that has been rolled. */
  predicate Admits(o: Options, r: Ring<bool>, draw: real)
    requires Accepted(o)
  {
    Allow(Shed(o, SumCounts(r.slots, IsSuccess), SumCounts(r.slots, IsFailure)), draw)
  }

  predicate Made(o: Options, r: Ring<bool>, slice: int, c: Call)
    requires Accepted(o) && slice > 0 && r.head < |r.slots|
  {
    !c.gated || Admits(o, SliceRing.Roll(r, slice, c.now, c.again), c.draw)
  }

  function After(o: Options, r: Ring<bool>, slice: int, c: Call): (r': Ring<bool>)
    requires Accepted(o) && slice > 0 && r.head < |r.slots|
    ensures |r'.slots| == |r.slots| && r'.head < |r'.slots|
  {
    var asked := if c.gated then SliceRing.Roll(r, slice, c.now, c.again) else r;
    if Made(o, r, slice, c) then Record(SliceRing.Roll(asked, slice, c.done, c.doneAgain), c.failed) else asked
  }

  function AfterAll(o: Options, r: Ring<bool>, slice: int, calls: seq<Call>): (r': Ring<bool>)
    requires Accepted(o) && slice > 0 && r.head < |r.slots|
    ensures |r'.slots| == |r.slots| && r'.head < |r'.slots|
  {
    if calls == [] then r else After(o, AfterAll(o, r, slice, calls[..|calls| - 1]), slice, calls[|calls| - 1])
  }

  /** Nothing is counted anywhere in the ring. */
  predicate Empty(r: Ring<bool>) { forall i :: 0 <= i < |r.slots| ==> r.slots[i] == [] }

  lemma {:induction false} EmptyCounts(slots: seq<seq<bool>>, p: bool -> bool)
    requires forall i :: 0 <= i < |slots| ==> slots[i] == []
    ensures SumCounts(slots, p) == 0
  {
    if slots != [] {
      EmptyCounts(slots[..|slots| - 1], p);
    }
  }

  lemma {:induction false} EmptyAdvances(r: Ring<bool>, slice: int, steps: nat)
    requires r.head < |r.slots| && Empty(r)
    ensures Empty(AdvanceBy(r, slice, steps))
  {
    if steps > 0 {
      EmptyAdvances(r, slice, steps - 1);
    }
  }

  lemma EmptyRolls(r: Ring<bool>, slice: int, now: int, again: int)
    requires slice > 0 && r.head < |r.slots| && Empty(r)
    ensures Empty(SliceRing.Roll(r, slice, now, again))
  {
    if now - r.headStart >= slice && !Expired(r, slice, now) {
      EmptyAdvances(r, slice, (now - r.headStart) / slice);
    }
  }

  /**
   The latch. From an empty window with MinRequests = 0, every call that asks Allow is refused and leaves the
   window empty, however many there are, at whatever times and on whatever draws.
   */
  lemma {:induction false} LatchedWhileOnlyGated(o: Options, r: Ring<bool>, slice: int, calls: seq<Call>, c: Call)
    requires Accepted(o) && o.minRequests == 0 && slice > 0 && r.head < |r.slots| && Empty(r)
    requires c.gated && forall i :: 0 <= i < |calls| ==> calls[i].gated
    ensures Empty(AfterAll(o, r, slice, calls))
    ensures !Made(o, AfterAll(o, r, slice, calls), slice, c)
  {
    if calls != [] {
      LatchedWhileOnlyGated(o, r, slice, calls[..|calls| - 1], calls[|calls| - 1]);
    }
    var end := AfterAll(o, r, slice, calls);
    if calls != [] {
      EmptyRolls(AfterAll(o, r, slice, calls[..|calls| - 1]), slice, calls[|calls| - 1].now, calls[|calls| - 1].again);
    }
    EmptyRolls(end, slice, c.now, c.again);
    EmptyCounts(SliceRing.Roll(end, slice, c.now, c.again).slots, IsSuccess);
    EmptyCounts(SliceRing.Roll(end, slice, c.now, c.again).slots, IsFailure);
  }

  /**
   What opens it, and for how long: one call that does not ask. For as long as its outcome stays in the window the
   fraction is a number: after a success every gated call goes through, after a failure every one drawn at MaxShed or
   above. Once a whole window has passed without another outcome the latch is shut again.
   */
  lemma UngatedOutcomeOpensTheLatch(o: Options, r: Ring<bool>, slice: int, u: Call, c: Call)
    requires Accepted(o) && o.minRequests == 0 && slice > 0 && r.head < |r.slots| && Empty(r) && !u.gated && c.gated
    ensures Made(o, After(o, r, slice, u), slice, c) <==>
              && !Expired(After(o, r, slice, u), slice, c.now)
              && (!u.failed || o.maxShed <= 0.0 || c.draw >= o.maxShed)
  {
    var rolled := SliceRing.Roll(r, slice, u.done, u.doneAgain);
    EmptyRolls(r, slice, u.done, u.doneAgain);
    var after := Record(rolled, u.failed);
    var moved := SliceRing.Roll(after, slice, c.now, c.again);
    if Expired(after, slice, c.now) {
      EmptyCounts(moved.slots, IsSuccess);
      EmptyCounts(moved.slots, IsFailure);
    } else {
      OutcomeStays(after, slice, c.now, c.again);
      OneSlot(moved.slots, after.head, IsSuccess);
      OneSlot(moved.slots, after.head, IsFailure);
      CountOne(u.failed, IsSuccess);
      CountOne(u.failed, IsFailure);
      if u.failed {
        TotalFailureShedsMax(o, 1);
      } else {
        ShedRange(o, 1, 0);
      }
    }
  }

  lemma CountOne(failed: bool, p: bool -> bool)
    ensures Count([failed], p) == if p(failed) then 1 else 0
  {
    CountSnoc([], failed, p);
    assert [] + [failed] == [failed];
  }

  /** Until the window has passed, rolling keeps the one slot that counts something. */
  lemma OutcomeStays(r: Ring<bool>, slice: int, now: int, again: int)
    requires slice > 0 && r.head < |r.slots| && !Expired(r, slice, now)
    requires forall i :: 0 <= i < |r.slots| && i != r.head ==> r.slots[i] == []
    ensures var moved := SliceRing.Roll(r, slice, now, again);
            && |moved.slots| == |r.slots| && moved.slots[r.head] == r.slots[r.head]
            && forall i :: 0 <= i < |moved.slots| && i != r.head ==> moved.slots[i] == []
  {
    if now - r.headStart >= slice {
      AdvanceKeeps(r, slice, (now - r.headStart) / slice);
    }
  }

  lemma {:induction false} AdvanceKeeps(r: Ring<bool>, slice: int, steps: nat)
    requires r.head < |r.slots| && steps < |r.slots|
    requires forall i :: 0 <= i < |r.slots| && i != r.head ==> r.slots[i] == []
    ensures var moved := AdvanceBy(r, slice, steps);
            && Back(moved.head, steps, |r.slots|) == r.head && moved.slots[r.head] == r.slots[r.head]
            && forall i :: 0 <= i < |moved.slots| && i != r.head ==> moved.slots[i] == []
  {
    if steps > 0 {
      AdvanceKeeps(r, slice, steps - 1);
    }
  }

  lemma {:induction false} OneSlot(slots: seq<seq<bool>>, at: nat, p: bool -> bool)
    requires at < |slots| && forall i :: 0 <= i < |slots| && i != at ==> slots[i] == []
    ensures SumCounts(slots, p) == Count(slots[at], p)
  {
    if at == |slots| - 1 {
      EmptyCounts(slots[..at], p);
    } else {
      OneSlot(slots[..|slots| - 1], at, p);
    }
  }

  /** The items are the recorded outcomes: true for a failure. */
  class Breaker {
    const opts: Options
    const slice: int
    const buckets: array<Bucket>
    var head: nat
    var headStart: int

    ghost var ring: Ring<bool>
    ghost var log: seq<Timed<bool>>
    ghost var seen: int

    ghost predicate Matches()
      reads this, buckets
    {
      && |ring.slots| == buckets.Length && ring.head == head < buckets.Length && ring.headStart == headStart
      && forall i :: 0 <= i < buckets.Length ==> buckets[i] == Tally(ring.slots[i])
    }

    ghost predicate Valid()
      reads this, buckets
    {
      && Accepted(opts) && slice == opts.window / opts.buckets > 0 && buckets.Length == opts.buckets
      && Matches() && Tracks(ring, slice, log, seen)
    }

    /** A window shorter than one nanosecond per bucket divides by zero when it rolls, so it is excluded. */
    constructor (o: Options, now: int)
      requires Accepted(o) && o.window >= o.buckets
      ensures Valid() && log == [] && seen == now && opts == o
    {
      opts := o;
      slice := o.window / o.buckets;
      buckets := new Bucket[o.buckets](_ => Bucket(0, 0));
      head, headStart := 0, now;
      ring, log, seen := Cleared(o.buckets, now), [], now;
    }

    method Roll(now: int, again: int)
      requires Valid() && seen <= now <= again
      modifies this, buckets
      ensures Valid() && log == old(log) && seen == Instant(old(ring), slice, now, again) >= old(seen)
      ensures ring == SliceRing.Roll(old(ring), slice, now, again)
      ensures seen < headStart + slice
    {
      RollTracks(ring, slice, log, seen, now, again);
      var elapsed := now - headStart;
      if elapsed < slice {
        seen := now;
        return;
      }
      var steps := elapsed / slice;
      if steps >= buckets.Length {
        ClearAll(again);
        return;
      }
      AdvanceByTracks(ring, slice, log, now, steps);
      AdvanceHead(steps);
      headStart := headStart + steps * slice;
      seen := now;
    }

    /** Step the head forward, clearing each bucket it reaches. */
    method AdvanceHead(steps: nat)
      requires Matches()
      modifies this`head, this`ring, buckets
      ensures |ring.slots| == buckets.Length && ring.head == head < buckets.Length
      ensures forall i :: 0 <= i < buckets.Length ==> buckets[i] == Tally(ring.slots[i])
      ensures ring == AdvanceBy(old(ring), slice, steps)
    {
      for n := 0 to steps
        invariant |ring.slots| == buckets.Length && ring.head == head < buckets.Length
        invariant forall i :: 0 <= i < buckets.Length ==> buckets[i] == Tally(ring.slots[i])
        invariant ring == AdvanceBy(old(ring), slice, n)
      {
        NextHeadIsModular(head, buckets.Length);
        head := (head + 1) % buckets.Length;
        buckets[head] := Bucket(0, 0);
        ring := Advance(ring, slice);
        assert ring.slots[head] == [] && buckets[head] == Tally([]);
      }
    }

    method ClearAll(start: int)
      requires Accepted(opts) && slice == opts.window / opts.buckets > 0 && buckets.Length == opts.buckets
      requires Tracks(Cleared<bool>(buckets.Length, start), slice, log, start)
      modifies this, buckets
      ensures Valid() && log == old(log) && seen == start && ring == Cleared(buckets.Length, start)
    {
      for i := 0 to buckets.Length
        invariant log == old(log)
        invariant forall j :: 0 <= j < i ==> buckets[j] == Bucket(0, 0)
      {
        buckets[i] := Bucket(0, 0);
      }
      head, headStart := 0, start;
      ring, seen := Cleared(buckets.Length, start), start;
    }

    /** Success and Failure. */
    method RecordOutcome(failed: bool, now: int, again: int)
      requires Valid() && seen <= now <= again
      modifies this, buckets
      ensures Valid() && log == old(log) + [Timed(seen, failed)] && seen == Instant(old(ring), slice, now, again)
      ensures ring == Record(SliceRing.Roll(old(ring), slice, now, again), failed)
    {
      Roll(now, again);
      RecordTracks(ring, slice, log, seen, failed);
      CountSnoc(ring.slots[head], failed, IsSuccess);
      CountSnoc(ring.slots[head], failed, IsFailure);
      var b := buckets[head];
      buckets[head] := if failed then b.(failures := b.failures + 1) else b.(successes := b.successes + 1);
      ring := Record(ring, failed);
      log := log + [Timed(seen, failed)];
    }

    /** countLocked. */
    method CountAll() returns (successes: nat, failures: nat)
      requires Valid()
      ensures successes == SumCounts(ring.slots, IsSuccess) && failures == SumCounts(ring.slots, IsFailure)
    {
      successes, failures := 0, 0;
      for i := 0 to buckets.Length
        invariant successes == SumCounts(ring.slots[..i], IsSuccess) && failures == SumCounts(ring.slots[..i], IsFailure)
      {
        assert ring.slots[..i + 1][..i] == ring.slots[..i];
        successes := successes + buckets[i].successes;
        failures := failures + buckets[i].failures;
      }
      assert ring.slots[..buckets.Length] == ring.slots;
    }

    /**
     The fraction shed is that of the outcomes logged in the live slices: all of those in the last
     (buckets - 1) slices, and none older than the window.
     */
    method ShedProbability(now: int, again: int) returns (p: Option<real>, ghost successes: nat, ghost failures: nat)
      requires Valid() && seen <= now <= again
      modifies this, buckets
      ensures Valid() && log == old(log) && seen == Instant(old(ring), slice, now, again)
      ensures ring == SliceRing.Roll(old(ring), slice, now, again)
      ensures successes == SumCounts(ring.slots, IsSuccess) && failures == SumCounts(ring.slots, IsFailure)
      ensures p == Shed(opts, successes, failures)
      ensures CountIn(log, seen - (opts.buckets - 1) * slice, seen + 1, IsFailure) <= failures
              <= CountIn(log, seen - opts.buckets * slice + 1, seen + 1, IsFailure)
      ensures CountIn(log, seen - (opts.buckets - 1) * slice, seen + 1, IsSuccess) <= successes
              <= CountIn(log, seen - opts.buckets * slice + 1, seen + 1, IsSuccess)
    {
      Roll(now, again);
      var s, f := CountAll();
      WindowBounds(ring, slice, log, seen, IsFailure);
      WindowBounds(ring, slice, log, seen, IsSuccess);
      successes, failures := s, f;
      p := Shed(opts, s, f);
    }

    /** Allow: it records nothing. */
    method Admit(now: int, again: int, draw: real) returns (ok: bool)
      requires Valid() && seen <= now <= again
      modifies this, buckets
      ensures Valid() && log == old(log) && seen == Instant(old(ring), slice, now, again)
      ensures ring == SliceRing.Roll(old(ring), slice, now, again) && ok == Admits(opts, ring, draw)
    {
      var p, s, f := ShedProbability(now, again);
      ok := p.Some? && (p.value <= 0.0 || draw >= p.value);
    }

    /** One call to the node: gated ones ask Allow first, and only a call that was made records its outcome. */
    method Serve(c: Call) returns (made: bool)
      requires Valid() && seen <= c.now <= c.again <= c.done <= c.doneAgain
      modifies this, buckets
      ensures Valid() && made == Made(opts, old(ring), slice, c) && ring == After(opts, old(ring), slice, c)
      ensures log == if made then old(log) + [Timed(seen, c.failed)] else old(log)
    {
      made := true;
      if c.gated {
        made := Admit(c.now, c.again, c.draw);
      }
      if made {
        RecordOutcome(c.failed, c.done, c.doneAgain);
      }
    }
  }

  /**
   Recovery: once a full window has passed since the last failure, the ring counts none, and with a
   positive evidence threshold the breaker sheds nothing.
   */
  lemma QuietWindowStopsShedding(o: Options, r: Ring<bool>, log: seq<Timed<bool>>, t: int)
    requires Accepted(o) && o.minRequests >= 1
    requires |r.slots| == o.buckets
    requires Tracks(r, o.window / o.buckets, log, t) && t < r.headStart + o.window / o.buckets
    requires forall i :: 0 <= i < |log| && log[i].item ==> log[i].at <= t - o.window
    ensures SumCounts(r.slots, IsFailure) == 0
    ensures Shed(o, SumCounts(r.slots, IsSuccess), SumCounts(r.slots, IsFailure)) == Some(0.0)
  {
    var slice := o.window / o.buckets;
    WindowBounds(r, slice, log, t, IsFailure);
    assert o.buckets * slice <= o.window;
    NoneAfter(log, t - o.buckets * slice + 1, t + 1);
    ShedRange(o, SumCounts(r.slots, IsSuccess), 0);
  }

  lemma {:induction false} NoneAfter(log: seq<Timed<bool>>, lo: int, hi: int)
    requires forall i :: 0 <= i < |log| && log[i].item ==> log[i].at < lo
    ensures CountIn(log, lo, hi, IsFailure) == 0
  {
    if log != [] {
      NoneAfter(log[..|log| - 1], lo, hi);
      CountSnoc(Items(log[..|log| - 1], lo, hi), log[|log| - 1].item, IsFailure);
    }
  }
}
