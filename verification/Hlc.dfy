/**
 The per-shard hybrid logical clock (internal/storage/hlc.go).

 A version packs 48 bits of milliseconds and a 16-bit counter into one 64-bit number. NewVersion
 panics outside that range; a panic is the `None` of the functions below, and leaves the clock as
 it was.
 */
module Hlc {
  import opened Common

  const LOGICALS: int := 0x1_0000
  const MAX_LOGICAL: int := LOGICALS - 1
  const MAX_PHYSICAL: int := 0x1_0000_0000_0000 - 1

  type Version = v: int | 0 <= v < TWO_64

  function NewVersion(millis: int, logical: int): (r: Option<Version>)
    requires 0 <= logical <= MAX_LOGICAL
    ensures r.Some? <==> 0 <= millis <= MAX_PHYSICAL
    ensures r.Some? ==> Physical(r.value) == millis && Logical(r.value) == logical
  {
    if millis < 0 || millis > MAX_PHYSICAL then None else Some(millis * LOGICALS + logical)
  }

  function Physical(v: Version): (millis: int)
    ensures 0 <= millis <= MAX_PHYSICAL
  {
    v / LOGICALS
  }

  function Logical(v: Version): (logical: int)
    ensures 0 <= logical <= MAX_LOGICAL
    ensures v == Physical(v) * LOGICALS + logical
  {
    v % LOGICALS
  }

  function AdvanceLogical(last: Version): Option<Version> {
    if Logical(last) == MAX_LOGICAL
    then NewVersion(Physical(last) + 1, 0)
    else NewVersion(Physical(last), Logical(last) + 1)
  }

  /** What Clock.Next returns and leaves in the clock, `None` when it panics. */
  function Next(last: Version, wall: int): Option<Version> {
    if wall > Physical(last) then NewVersion(wall, 0) else AdvanceLogical(last)
  }

  /** What Clock.Now returns and leaves in the clock, `None` when it panics. */
  function Now(last: Version, wall: int): Option<Version> {
    match NewVersion(wall, 0)
    case None => None
    case Some(candidate) => Some(if candidate > last then candidate else last)
  }

  function Observe(last: Version, v: Version): Version {
    if v > last then v else last
  }

  /** Packing compares like the pair: a plain integer compare orders versions. */
  lemma PackingOrders(a: Version, b: Version)
    ensures a < b <==> Physical(a) < Physical(b) || (Physical(a) == Physical(b) && Logical(a) < Logical(b))
  {
    assert a == Physical(a) * LOGICALS + Logical(a);
    assert b == Physical(b) * LOGICALS + Logical(b);
  }

  /**
   The three branches of Next are one formula: the larger of "one more than the last version" and
   "this millisecond". Saturation is not a special case, because borrowing a millisecond is adding
   one to the packed number. It panics exactly when the formula leaves the 64-bit range.
   */
  lemma NextIsMax(last: Version, wall: int)
    ensures Next(last, wall).Some? <==> Max(last + 1, wall * LOGICALS) < TWO_64
    ensures Next(last, wall).Some? ==> Next(last, wall).value == Max(last + 1, wall * LOGICALS)
  {
    assert last == Physical(last) * LOGICALS + Logical(last);
  }

  /** A sample consumes no tick: it is the larger of the last version and this millisecond. */
  lemma NowIsMax(last: Version, wall: int)
    ensures Now(last, wall).Some? <==> 0 <= wall <= MAX_PHYSICAL
    ensures Now(last, wall).Some? ==> Now(last, wall).value == Max(last, wall * LOGICALS)
  {
  }

  /** Clock issues versions for one shard; `wall` is what the injected clock reads. */
  class Clock {
    var last: Version

    constructor ()
      ensures last == 0
    {
      last := 0;
    }

    method NextVersion(wall: int) returns (r: Option<Version>)
      modifies this
      ensures r == Next(old(last), wall)
      ensures last == if r.Some? then r.value else old(last)
      ensures r.Some? ==> r.value > old(last)
    {
      NextIsMax(last, wall);
      if wall > Physical(last) {
        r := NewVersion(wall, 0);
      } else {
        r := BumpLogical();
        return;
      }
      if r.Some? {
        last := r.value;
      }
    }

    method BumpLogical() returns (r: Option<Version>)
      modifies this
      ensures r == AdvanceLogical(old(last))
      ensures last == if r.Some? then r.value else old(last)
    {
      if Logical(last) == MAX_LOGICAL {
        r := NewVersion(Physical(last) + 1, 0);
      } else {
        r := NewVersion(Physical(last), Logical(last) + 1);
      }
      if r.Some? {
        last := r.value;
      }
    }

    method Sample(wall: int) returns (r: Option<Version>)
      modifies this
      ensures r == Now(old(last), wall)
      ensures last == if r.Some? then r.value else old(last)
      ensures r.Some? ==> r.value >= old(last)
    {
      var candidate := NewVersion(wall, 0);
      if candidate.None? {
        return None;
      }
      if candidate.value > last {
        last := candidate.value;
      }
      return Some(last);
    }

    method Adopt(v: Version)
      modifies this
      ensures last == Observe(old(last), v)
    {
      if v > last {
        last := v;
      }
    }
  }

  // ---- whole runs of one clock ----

  datatype Call = CallNext(wall: int) | CallNow(wall: int) | CallObserve(version: Version)

  /** What a call produced: an issued version, a sample, an adopted version, or a panic. */
  datatype Reply = Issued(version: Version) | Sampled(version: Version) | Adopted(version: Version) | Panicked

  function Answer(last: Version, call: Call): Reply {
    match call
    case CallNext(wall) => (match Next(last, wall) case None => Panicked case Some(v) => Issued(v))
    case CallNow(wall) => (match Now(last, wall) case None => Panicked case Some(v) => Sampled(v))
    case CallObserve(v) => Adopted(v)
  }

  function After(last: Version, call: Call): Version {
    match Answer(last, call)
    case Issued(v) => v
    case Sampled(v) => v
    case Adopted(v) => Observe(last, v)
    case Panicked => last
  }

  function Replies(last: Version, calls: seq<Call>): (rs: seq<Reply>)
    ensures |rs| == |calls|
    decreases calls
  {
    if calls == [] then [] else [Answer(last, calls[0])] + Replies(After(last, calls[0]), calls[1..])
  }

  /** Every reply of a run from `last` is at least `last`, and an issued version is above it. */
  lemma {:induction false} RepliesAbove(last: Version, calls: seq<Call>, j: nat)
    requires j < |calls|
    ensures Replies(last, calls)[j].Issued? ==> Replies(last, calls)[j].version > last
    ensures Replies(last, calls)[j].Sampled? ==> Replies(last, calls)[j].version >= last
    decreases calls
  {
    var call := calls[0];
    if call.CallNext? { NextIsMax(last, call.wall); }
    if j > 0 {
      RepliesAbove(After(last, call), calls[1..], j - 1);
    }
  }

  /**
   Over any run of one clock, with wall readings that may jump backwards: an issued version is
   strictly above everything the clock issued, sampled or adopted before it, and a sample is never
   below any of them.
   */
  lemma {:induction false} ClockNeverGoesBack(last: Version, calls: seq<Call>, i: nat, j: nat)
    requires i < j < |calls|
    requires !Replies(last, calls)[i].Panicked?
    ensures Replies(last, calls)[j].Issued? ==>
              Replies(last, calls)[j].version > Replies(last, calls)[i].version
    ensures Replies(last, calls)[j].Sampled? ==>
              Replies(last, calls)[j].version >= Replies(last, calls)[i].version
    decreases calls
  {
    if i == 0 {
      RepliesAbove(After(last, calls[0]), calls[1..], j - 1);
    } else {
      ClockNeverGoesBack(After(last, calls[0]), calls[1..], i - 1, j - 1);
    }
  }
}
