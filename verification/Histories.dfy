/**
 When invalidation makes a write visible, exactly: an if-and-only-if over all runs with a given history.

 Guarantees shows that a pool which processed every invalidation of a key up to write n can hide n only behind a
 row that was overwritten without its lock. Here any such overwrite is shown to be enough: into any run that has
 one, a read can be inserted that fetched the overwritten row, and landed after all the invalidations it hides n.
 Inserting it changes nothing else, because a run does not depend on the ticks at which its steps happen.
 */
module Histories {
  import opened Common
  import opened Hlc
  import opened Protocol
  import opened Guarantees
  import CacheSlot

  // ---- states that differ in ticks, one read and one clock ----

  function PlainTxn(t: Txn): Txn {
    t.(stamp := if t.stamp.Some? then Some(Stamp(t.stamp.value.version, 0)) else None)
  }

  function PlainWrite(w: Write): Write { w.(stampedAt := 0, committedAt := 0) }

  function PlainFetch(f: Fetch): Fetch {
    f.(sampledAt := 0, row := if f.row.Some? then Some(f.row.value.(at := 0)) else None)
  }

  ghost predicate LikeTxns(a: map<nat, Txn>, b: map<nat, Txn>) {
    a.Keys == b.Keys && forall t :: t in a ==> PlainTxn(a[t]) == PlainTxn(b[t])
  }

  /** The same writes in the same order, ticks apart. */
  ghost predicate LikeWrites(a: seq<Write>, b: seq<Write>) {
    |a| == |b| && forall i :: 0 <= i < |a| ==> PlainWrite(a[i]) == PlainWrite(b[i])
  }

  ghost predicate LikeLogs(s: State, z: State) { forall k :: LikeWrites(Log(s, k), Log(z, k)) }

  /** z has one read more. */
  ghost predicate LikeFetches(a: map<nat, Fetch>, b: map<nat, Fetch>, r: nat) {
    r !in a && b.Keys == a.Keys + {r} && forall x :: x in a ==> PlainFetch(a[x]) == PlainFetch(b[x])
  }

  ghost predicate LikeClocks(s: State, z: State, c: ClockId) {
    forall d :: d != c ==> ClockOf(s, d) == ClockOf(z, d)
  }

  /** Nothing in the state belongs to clock c. */
  ghost predicate Untouched(s: State, c: ClockId) {
    (forall t :: t in s.txns ==> s.txns[t].clock != c) && forall x :: x in s.fetches ==> s.fetches[x].clock != c
  }

  ghost predicate Like(s: State, z: State, r: nat, c: ClockId) {
    && s.time == z.time && LikeClocks(s, z, c) && Untouched(s, c)
    && LikeTxns(s.txns, z.txns) && s.locks == z.locks && LikeLogs(s, z)
    && LikeFetches(s.fetches, z.fetches, r) && s.slots == z.slots && s.watermarks == z.watermarks
  }

  /** The step uses neither the read nor the clock. */
  predicate Avoids(step: Step, r: nat, c: ClockId) {
    match step
    case Begin(_, d) => d != c
    case Sample(x, d, _, _) => x != r && d != c
    case FetchRow(x) => x != r
    case Return(x, _) => x != r
    case Land(x, _) => x != r
    case _ => true
  }

  // ---- a step does the same to both ----

  lemma SameCurrent(s: State, z: State, k: Key)
    requires LikeLogs(s, z)
    ensures Current(Log(s, k)) == Current(Log(z, k)) && VersionNow(s, k) == VersionNow(z, k) && |Log(s, k)| == |Log(z, k)|
  {
    assert LikeWrites(Log(s, k), Log(z, k));
    if Log(s, k) != [] {
      assert PlainWrite(Log(s, k)[|Log(s, k)| - 1]) == PlainWrite(Log(z, k)[|Log(z, k)| - 1]);
    }
  }

  lemma SameTxn(s: State, z: State, t: nat)
    requires LikeTxns(s.txns, z.txns)
    ensures t in s.txns <==> t in z.txns
    ensures t in s.txns ==>
              && s.txns[t].clock == z.txns[t].clock && s.txns[t].locked == z.txns[t].locked && s.txns[t].open == z.txns[t].open
              && s.txns[t].wrote == z.txns[t].wrote && s.txns[t].stamp.Some? == z.txns[t].stamp.Some?
              && (s.txns[t].stamp.Some? ==> s.txns[t].stamp.value.version == z.txns[t].stamp.value.version)
  {
    if t in s.txns {
      assert PlainTxn(s.txns[t]) == PlainTxn(z.txns[t]);
    }
  }

  lemma SameFetch(s: State, z: State, r: nat, x: nat)
    requires LikeFetches(s.fetches, z.fetches, r) && x != r
    ensures x in s.fetches <==> x in z.fetches
    ensures x in s.fetches ==>
              && s.fetches[x].clock == z.fetches[x].clock && s.fetches[x].key == z.fetches[x].key
              && s.fetches[x].fill == z.fetches[x].fill && s.fetches[x].row.Some? == z.fetches[x].row.Some?
              && (s.fetches[x].row.Some? ==>
                    s.fetches[x].row.value.version == z.fetches[x].row.value.version
                    && s.fetches[x].row.value.negative == z.fetches[x].row.value.negative)
  {
    if x in s.fetches {
      assert PlainFetch(s.fetches[x]) == PlainFetch(z.fetches[x]);
    }
  }

  /** The parts a step names, on both sides. */
  lemma SameParts(s: State, z: State, r: nat, c: ClockId, step: Step)
    requires Like(s, z, r, c) && Avoids(step, r, c)
    ensures step.Lock? || step.DoStamp? || step.Commit? || step.Rollback? || step.Ack? || step.Begin? ==>
              (step.txn in s.txns <==> step.txn in z.txns)
    ensures Enabled(s, step) ==> Enabled(z, step)
  {
    match step
    case Begin(t, _) => SameTxn(s, z, t);
    case Lock(t, k) => SameTxn(s, z, t);
    case DoStamp(t, _) => SameTxn(s, z, t);
    case Commit(t, _) => SameTxn(s, z, t);
    case Rollback(t) => SameTxn(s, z, t);
    case Ack(t, _) => SameTxn(s, z, t);
    case Sample(x, _, _, _) => SameFetch(s, z, r, x);
    case FetchRow(x) => SameFetch(s, z, r, x);
    case Return(x, _) => SameFetch(s, z, r, x);
    case Land(x, _) => SameFetch(s, z, r, x);
    case _ =>
  }

  function In(clocks: map<ClockId, Version>, d: ClockId): Version { if d in clocks then clocks[d] else 0 }

  lemma ClockStaysLike(s: State, z: State, r: nat, c: ClockId, step: Step, d: ClockId)
    requires LikeClocks(s, z, c) && Untouched(s, c) && LikeTxns(s.txns, z.txns) && LikeLogs(s, z)
    requires LikeFetches(s.fetches, z.fetches, r) && d != c
    requires Avoids(step, r, c) && Enabled(s, step) && Enabled(z, step)
    ensures In(ClocksAfter(s, step), d) == In(ClocksAfter(z, step), d)
  {
    assert ClockOf(s, d) == ClockOf(z, d);
    if step.Lock? {
      LockMovesClocks(s, z, c, step, d);
    } else if step.DoStamp? {
      StampMovesClocks(s, z, c, step, d);
    } else if step.FetchRow? {
      FetchMovesClocks(s, z, r, c, step, d);
    } else if step.Sample? {
      assert ClockOf(s, step.clock) == ClockOf(z, step.clock);
    }
  }

  lemma LockMovesClocks(s: State, z: State, c: ClockId, step: Step, d: ClockId)
    requires LikeClocks(s, z, c) && Untouched(s, c) && LikeTxns(s.txns, z.txns) && LikeLogs(s, z) && d != c
    requires step.Lock? && Enabled(s, step) && Enabled(z, step)
    ensures In(ClocksAfter(s, step), d) == In(ClocksAfter(z, step), d)
  {
    SameTxn(s, z, step.txn);
    SameCurrent(s, z, step.key);
    assert ClockOf(s, s.txns[step.txn].clock) == ClockOf(z, s.txns[step.txn].clock) && ClockOf(s, d) == ClockOf(z, d);
  }

  lemma StampMovesClocks(s: State, z: State, c: ClockId, step: Step, d: ClockId)
    requires LikeClocks(s, z, c) && Untouched(s, c) && LikeTxns(s.txns, z.txns) && d != c
    requires step.DoStamp? && Enabled(s, step) && Enabled(z, step)
    ensures In(ClocksAfter(s, step), d) == In(ClocksAfter(z, step), d)
  {
    SameTxn(s, z, step.txn);
    assert ClockOf(s, s.txns[step.txn].clock) == ClockOf(z, s.txns[step.txn].clock) && ClockOf(s, d) == ClockOf(z, d);
  }

  lemma FetchMovesClocks(s: State, z: State, r: nat, c: ClockId, step: Step, d: ClockId)
    requires LikeClocks(s, z, c) && Untouched(s, c) && LikeLogs(s, z) && LikeFetches(s.fetches, z.fetches, r) && d != c
    requires step.FetchRow? && step.read != r && Enabled(s, step) && Enabled(z, step)
    ensures In(ClocksAfter(s, step), d) == In(ClocksAfter(z, step), d)
  {
    SameFetch(s, z, r, step.read);
    var f := s.fetches[step.read];
    SameCurrent(s, z, f.key);
    assert ClockOf(s, f.clock) == ClockOf(z, f.clock) && ClockOf(s, d) == ClockOf(z, d);
  }

  lemma TxnsStayLike(s: State, z: State, c: ClockId, step: Step)
    requires LikeClocks(s, z, c) && Untouched(s, c) && LikeTxns(s.txns, z.txns) && LikeLogs(s, z)
    requires Enabled(s, step) && Enabled(z, step) && (step.Begin? ==> step.clock != c)
    ensures LikeTxns(TxnsAfter(s, step), TxnsAfter(z, step))
    ensures forall t :: t in TxnsAfter(s, step) ==> TxnsAfter(s, step)[t].clock != c
  {
    if step.Lock? {
      LockChangesTxn(s, z, c, step);
    } else if step.DoStamp? {
      StampChangesTxn(s, z, c, step);
    } else if step.Commit? || step.Rollback? {
      EndChangesTxn(s, z, c, step);
    } else if step.Begin? {
      OneTxnChanges(s.txns, z.txns, step.txn, TxnsAfter(s, step)[step.txn], TxnsAfter(z, step)[step.txn]);
    }
  }

  lemma LockChangesTxn(s: State, z: State, c: ClockId, step: Step)
    requires Untouched(s, c) && LikeTxns(s.txns, z.txns) && LikeLogs(s, z)
    requires step.Lock? && Enabled(s, step) && Enabled(z, step)
    ensures LikeTxns(TxnsAfter(s, step), TxnsAfter(z, step))
    ensures forall t :: t in TxnsAfter(s, step) ==> TxnsAfter(s, step)[t].clock != c
  {
    SameTxn(s, z, step.txn);
    SameCurrent(s, z, step.key);
    OneTxnChanges(s.txns, z.txns, step.txn, TxnsAfter(s, step)[step.txn], TxnsAfter(z, step)[step.txn]);
  }

  lemma StampChangesTxn(s: State, z: State, c: ClockId, step: Step)
    requires LikeClocks(s, z, c) && Untouched(s, c) && LikeTxns(s.txns, z.txns)
    requires step.DoStamp? && Enabled(s, step) && Enabled(z, step)
    ensures LikeTxns(TxnsAfter(s, step), TxnsAfter(z, step))
    ensures forall t :: t in TxnsAfter(s, step) ==> TxnsAfter(s, step)[t].clock != c
  {
    SameTxn(s, z, step.txn);
    assert ClockOf(s, s.txns[step.txn].clock) == ClockOf(z, s.txns[step.txn].clock);
    OneTxnChanges(s.txns, z.txns, step.txn, TxnsAfter(s, step)[step.txn], TxnsAfter(z, step)[step.txn]);
  }

  lemma EndChangesTxn(s: State, z: State, c: ClockId, step: Step)
    requires Untouched(s, c) && LikeTxns(s.txns, z.txns)
    requires (step.Commit? || step.Rollback?) && Enabled(s, step) && Enabled(z, step)
    ensures LikeTxns(TxnsAfter(s, step), TxnsAfter(z, step))
    ensures forall t :: t in TxnsAfter(s, step) ==> TxnsAfter(s, step)[t].clock != c
  {
    SameTxn(s, z, step.txn);
    OneTxnChanges(s.txns, z.txns, step.txn, TxnsAfter(s, step)[step.txn], TxnsAfter(z, step)[step.txn]);
  }

  lemma OneTxnChanges(a: map<nat, Txn>, b: map<nat, Txn>, t: nat, x: Txn, y: Txn)
    requires LikeTxns(a, b) && PlainTxn(x) == PlainTxn(y)
    ensures LikeTxns(a[t := x], b[t := y])
  {
  }

  lemma LocksStayLike(s: State, z: State, r: nat, c: ClockId, step: Step)
    requires Like(s, z, r, c) && Avoids(step, r, c) && Enabled(s, step) && Enabled(z, step)
    ensures LocksAfter(s, step) == LocksAfter(z, step)
  {
    if step.Lock? {
      SameCurrent(s, z, step.key);
    }
  }

  lemma LogStaysLike(s: State, z: State, e: Event, k: Key)
    requires LikeTxns(s.txns, z.txns) && LikeWrites(Log(s, k), Log(z, k)) && Enabled(s, e.step) && Enabled(z, e.step)
    ensures LikeWrites(Log(Apply(s, e), k), Log(Apply(z, e), k))
  {
    if e.step.Commit? && k in e.step.writes {
      SameTxn(s, z, e.step.txn);
      CommitAppends(s, e, k);
      CommitAppends(z, e, k);
      var a, b := Log(s, k), Log(z, k);
      var v, w := Committed(s, e.step.txn, k, e.step.writes[k], e.time), Committed(z, e.step.txn, k, e.step.writes[k], e.time);
      assert PlainWrite(v) == PlainWrite(w);
      forall i | 0 <= i < |a| + 1 ensures PlainWrite((a + [v])[i]) == PlainWrite((b + [w])[i]) {
      }
    } else {
      LogGrows(s, e, k);
      LogGrows(z, e, k);
    }
  }

  lemma CommitAppends(s: State, e: Event, k: Key)
    requires Enabled(s, e.step) && e.step.Commit? && k in e.step.writes
    ensures Log(Apply(s, e), k) == Log(s, k) + [Committed(s, e.step.txn, k, e.step.writes[k], e.time)]
  {
  }

  lemma FetchesStayLike(s: State, z: State, r: nat, c: ClockId, step: Step, time: int)
    requires LikeClocks(s, z, c) && Untouched(s, c) && LikeLogs(s, z) && LikeFetches(s.fetches, z.fetches, r)
    requires Avoids(step, r, c) && Enabled(s, step) && Enabled(z, step)
    ensures LikeFetches(FetchesAfter(s, step, time), FetchesAfter(z, step, time), r)
    ensures forall x :: x in FetchesAfter(s, step, time) ==> FetchesAfter(s, step, time)[x].clock != c
  {
    match step
    case FetchRow(x) =>
      SameFetch(s, z, r, x);
      SameCurrent(s, z, s.fetches[x].key);
      assert PlainFetch(s.fetches[x]) == PlainFetch(z.fetches[x]);
      OneFetchChanges(s.fetches, z.fetches, r, x, FetchesAfter(s, step, time)[x], FetchesAfter(z, step, time)[x]);
    case Sample(x, d, k, wall) =>
      assert ClockOf(s, d) == ClockOf(z, d);
      OneFetchChanges(s.fetches, z.fetches, r, x, FetchesAfter(s, step, time)[x], FetchesAfter(z, step, time)[x]);
    case _ =>
  }

  lemma OneFetchChanges(a: map<nat, Fetch>, b: map<nat, Fetch>, r: nat, x: nat, f: Fetch, g: Fetch)
    requires LikeFetches(a, b, r) && x != r && PlainFetch(f) == PlainFetch(g)
    ensures LikeFetches(a[x := f], b[x := g], r)
  {
  }

  lemma SlotsStayLike(s: State, z: State, r: nat, c: ClockId, step: Step)
    requires LikeFetches(s.fetches, z.fetches, r) && s.slots == z.slots
    requires Avoids(step, r, c) && Enabled(s, step) && Enabled(z, step)
    ensures SlotsAfter(s, step) == SlotsAfter(z, step)
  {
    match step
    case Land(x, _) => SameFetch(s, z, r, x);
    case _ =>
  }

  lemma WatermarksStayLike(s: State, z: State, r: nat, c: ClockId, step: Step)
    requires LikeTxns(s.txns, z.txns) && LikeFetches(s.fetches, z.fetches, r) && s.slots == z.slots && s.watermarks == z.watermarks
    requires Avoids(step, r, c) && Enabled(s, step) && Enabled(z, step)
    ensures WatermarksAfter(s, step) == WatermarksAfter(z, step)
  {
    if step.Return? {
      SameFetch(s, z, r, step.read);
    } else if step.Ack? {
      SameTxn(s, z, step.txn);
    }
  }

  /** A step the run can take, it can take with the extra read in place, and the two stay alike. */
  lemma StepStaysLike(s: State, z: State, r: nat, c: ClockId, e: Event, s': State) returns (z': State)
    requires Like(s, z, r, c) && Avoids(e.step, r, c) && Follows(s, e, s')
    ensures Follows(z, e, z') && Like(s', z', r, c)
  {
    SameParts(s, z, r, c, e.step);
    z' := Apply(z, e);
    forall d | d != c ensures ClockOf(s', d) == ClockOf(z', d) {
      ClockStaysLike(s, z, r, c, e.step, d);
    }
    TxnsStayLike(s, z, c, e.step);
    LocksStayLike(s, z, r, c, e.step);
    FetchesStayLike(s, z, r, c, e.step, e.time);
    SlotsStayLike(s, z, r, c, e.step);
    WatermarksStayLike(s, z, r, c, e.step);
    forall k ensures LikeWrites(Log(s', k), Log(z', k)) {
      assert LikeWrites(Log(s, k), Log(z, k));
      LogStaysLike(s, z, e, k);
    }
  }

  // ---- putting the read in ----

  ghost predicate AllAvoid(events: seq<Event>, r: nat, c: ClockId) {
    forall i :: 0 <= i < |events| ==> Avoids(events[i].step, r, c)
  }

  /** In a run that avoids the clock and the read, the state knows neither. */
  lemma {:induction false} RunLeavesUntouched(states: seq<State>, events: seq<Event>, r: nat, c: ClockId)
    requires Run(states, events) && AllAvoid(events, r, c)
    ensures Untouched(Last(states), c) && c !in Last(states).clocks && r !in Last(states).fetches
    decreases events
  {
    if events != [] {
      var n := |events| - 1;
      assert Run(states[..n + 1], events[..n]);
      RunLeavesUntouched(states[..n + 1], events[..n], r, c);
      assert Follows(states[n], events[n], states[n + 1]);
      UntouchedStep(states[n], events[n], r, c);
    }
  }

  lemma UntouchedStep(s: State, e: Event, r: nat, c: ClockId)
    requires Enabled(s, e.step) && Avoids(e.step, r, c) && Untouched(s, c) && c !in s.clocks && r !in s.fetches
    ensures Untouched(Apply(s, e), c) && c !in Apply(s, e).clocks && r !in Apply(s, e).fetches
  {
  }

  /** A read of k, from sample to row, through a clock nobody else uses. */
  lemma ReadNow(states: seq<State>, events: seq<Event>, k: Key, r: nat, c: ClockId, wall: int)
      returns (states': seq<State>, events': seq<Event>)
    requires Run(states, events) && AllAvoid(events, r, c) && c.shard == k.shard && 0 <= wall <= MAX_PHYSICAL
    ensures Run(states', events') && Like(Last(states), Last(states'), r, c)
    ensures ReadOf(Last(states'), r, k, |Log(Last(states), k)|)
  {
    RunLeavesUntouched(states, events, r, c);
    var s := Last(states);
    NowIsMax(ClockOf(s, c), wall);
    var sample, fetch := Event(Sample(r, c, k, wall), s.time), Event(FetchRow(r), s.time);
    var s1 := Apply(s, sample);
    RunGoesOn(states, events, sample, s1);
    var s2 := Apply(s1, fetch);
    RunGoesOn(states + [s1], events + [sample], fetch, s2);
    states', events' := states + [s1] + [s2], events + [sample] + [fetch];
    SampledAndFetched(s, r, c, k, wall);
  }

  ghost predicate ReadOf(s: State, r: nat, k: Key, seen: nat) {
    r in s.fetches && s.fetches[r].key == k && s.fetches[r].row.Some? && s.fetches[r].row.value.seen == seen
  }

  lemma SampledAndFetched(s: State, r: nat, c: ClockId, k: Key, wall: int)
    requires Untouched(s, c) && r !in s.fetches && Enabled(s, Sample(r, c, k, wall))
    ensures var s1 := Apply(s, Event(Sample(r, c, k, wall), s.time));
            && Enabled(s1, FetchRow(r))
            && var s2 := Apply(s1, Event(FetchRow(r), s.time)); Like(s, s2, r, c) && ReadOf(s2, r, k, |Log(s, k)|)
  {
    var s1 := Apply(s, Event(Sample(r, c, k, wall), s.time));
    var s2 := Apply(s1, Event(FetchRow(r), s.time));
    forall j ensures LikeWrites(Log(s, j), Log(s2, j)) {
      assert Log(s2, j) == Log(s, j);
    }
  }

  lemma ReadStands(s: State, e: Event, s': State, r: nat, k: Key, seen: nat)
    requires Follows(s, e, s') && ReadOf(s, r, k, seen)
    ensures ReadOf(s', r, k, seen)
  {
    FetchGrows(s, e, r);
  }

  /** Into any run, a read can be put that fetched the key when it had m writes. */
  lemma {:induction false} InsertRead(states: seq<State>, events: seq<Event>, k: Key, m: nat, r: nat, c: ClockId, wall: int)
      returns (states': seq<State>, events': seq<Event>)
    requires Run(states, events) && AllAvoid(events, r, c) && c.shard == k.shard && 0 <= wall <= MAX_PHYSICAL
    requires m <= |Log(Last(states), k)|
    ensures Run(states', events') && Like(Last(states), Last(states'), r, c) && ReadOf(Last(states'), r, k, m)
    decreases events
  {
    if m == |Log(Last(states), k)| {
      states', events' := ReadNow(states, events, k, r, c, wall);
    } else {
      var n := |events| - 1;
      var before, done, e := states[..n + 1], events[..n], events[n];
      assert Follows(states[n], e, states[n + 1]);
      LogGrows(states[n], e, k);
      assert Run(before, done) && Last(before) == states[n];
      states', events' := InsertRead(before, done, k, m, r, c, wall);
      var z := StepStaysLike(states[n], Last(states'), r, c, e, states[n + 1]);
      ReadStands(Last(states'), e, z, r, k, m);
      RunGoesOn(states', events', e, z);
      states', events' := states' + [z], events' + [e];
    }
  }

  /** A number above the read and the engine a step names. */
  function Above(step: Step): nat {
    match step
    case Begin(_, d) => d.engine + 1
    case Sample(x, d, _, _) => x + d.engine + 1
    case FetchRow(x) => x + 1
    case Return(x, _) => x + 1
    case Land(x, _) => x + 1
    case _ => 0
  }

  /** A number above every read and every engine the events name. */
  function Unused(events: seq<Event>): nat {
    if events == [] then 0 else Unused(events[..|events| - 1]) + Above(events[|events| - 1].step)
  }

  lemma {:induction false} UnusedIsAbove(events: seq<Event>)
    ensures forall i :: 0 <= i < |events| ==> Above(events[i].step) <= Unused(events)
  {
    if events != [] {
      UnusedIsAbove(events[..|events| - 1]);
    }
  }

  // ---- the invalidations, and the late fill ----

  /** Only the pools, the tick and nothing else may differ. */
  predicate SameRows(s: State, z: State) { z.log == s.log && z.fetches == s.fetches && z.time == s.time }

  lemma InvalidatedStays(events: seq<Event>, cell: Cell, v: Version, e: Event)
    requires InvalidatedAt(events, |events|, cell, v) && e.step != Lose(cell)
    ensures InvalidatedAt(events + [e], |events| + 1, cell, v)
  {
    var i :| 0 <= i < |events| && Invalidated(events, i, |events|, cell, v);
    assert Invalidated(events + [e], i, |events| + 1, cell, v);
  }

  lemma InvalidatedNow(events: seq<Event>, cell: Cell, v: Version, time: int)
    ensures InvalidatedAt(events + [Event(Invalidate(cell, v), time)], |events| + 1, cell, v)
  {
    assert Invalidated(events + [Event(Invalidate(cell, v), time)], |events|, |events| + 1, cell, v);
  }

  /** The first q writes were invalidated, and the cell holds their highest marker at most. */
  ghost predicate Marked(events: seq<Event>, s: State, cell: Cell, q: nat) {
    && q <= |Log(s, cell.key)|
    && (forall p :: 0 <= p < q ==> InvalidatedAt(events, |events|, cell, Log(s, cell.key)[p].version))
    && SlotAt(s, cell).entry.None?
    && (SlotAt(s, cell).marker.Some? ==>
          exists p :: 0 <= p < q && Log(s, cell.key)[p].version == SlotAt(s, cell).marker.value)
  }

  lemma {:induction false} InvalidateThrough(states: seq<State>, events: seq<Event>, cell: Cell, q: nat)
      returns (states': seq<State>, events': seq<Event>)
    requires Run(states, events) && q <= |Log(Last(states), cell.key)|
    ensures Run(states', events') && SameRows(Last(states), Last(states')) && Marked(events', Last(states'), cell, q)
    decreases q
  {
    if q == 0 {
      var e := Event(Lose(cell), Last(states).time);
      var s' := Apply(Last(states), e);
      RunGoesOn(states, events, e, s');
      states', events' := states + [s'], events + [e];
    } else {
      states', events' := InvalidateThrough(states, events, cell, q - 1);
      var s := Last(states');
      var v := Log(s, cell.key)[q - 1].version;
      var e := Event(Invalidate(cell, v), s.time);
      MarkOne(events', s, cell, q - 1);
      RunGoesOn(states', events', e, Apply(s, e));
      states', events' := states' + [Apply(s, e)], events' + [e];
    }
  }

  lemma MarkOne(events: seq<Event>, s: State, cell: Cell, q: nat)
    requires Marked(events, s, cell, q) && q < |Log(s, cell.key)|
    ensures var e := Event(Invalidate(cell, Log(s, cell.key)[q].version), s.time);
            Marked(events + [e], Apply(s, e), cell, q + 1) && SameRows(s, Apply(s, e))
  {
    var log := Log(s, cell.key);
    var e := Event(Invalidate(cell, log[q].version), s.time);
    InvalidatedNow(events, cell, log[q].version, s.time);
    forall p | 0 <= p < q ensures InvalidatedAt(events + [e], |events + [e]|, cell, log[p].version) {
      InvalidatedStays(events, cell, log[p].version, e);
    }
  }

  /** A read whose row no invalidation outranks lands, and hides the writes it did not see. */
  lemma LandIt(states: seq<State>, events: seq<Event>, cell: Cell, r: nat, m: nat, n: nat)
      returns (states': seq<State>, events': seq<Event>)
    requires Run(states, events) && Marked(events, Last(states), cell, n + 1) && ReadOf(Last(states), r, cell.key, m + 1)
    requires OverwrittenUnlocked(Log(Last(states), cell.key), m, n)
    ensures Run(states', events') && Last(states').log == Last(states).log
    ensures AllInvalidated(states', events', |events'|, cell, n) && Hides(Last(states'), cell, n)
  {
    var s := Last(states);
    RunKeepsInv(states, events, |states| - 1);
    LandsAbove(s, cell, r, m, n);
    var e := Event(Land(r, cell.pool), s.time);
    RunGoesOn(states, events, e, Apply(s, e));
    states', events' := states + [Apply(s, e)], events + [e];
    StillMarked(events, s, cell, n, e);
  }

  lemma StillMarked(events: seq<Event>, s: State, cell: Cell, n: nat, e: Event)
    requires Marked(events, s, cell, n + 1) && e.step != Lose(cell)
    ensures forall p :: 0 <= p <= n ==> InvalidatedAt(events + [e], |events + [e]|, cell, Log(s, cell.key)[p].version)
  {
    forall p | 0 <= p <= n ensures InvalidatedAt(events + [e], |events + [e]|, cell, Log(s, cell.key)[p].version) {
      InvalidatedStays(events, cell, Log(s, cell.key)[p].version, e);
    }
  }

  lemma LandsAbove(s: State, cell: Cell, r: nat, m: nat, n: nat)
    requires Inv(s) && ReadOf(s, r, cell.key, m + 1) && OverwrittenUnlocked(Log(s, cell.key), m, n)
    requires SlotAt(s, cell).entry.None?
    requires SlotAt(s, cell).marker.Some? ==> exists p :: 0 <= p < n + 1 && Log(s, cell.key)[p].version == SlotAt(s, cell).marker.value
    ensures Enabled(s, Land(r, cell.pool)) && Apply(s, Event(Land(r, cell.pool), s.time)).log == s.log
    ensures Hides(Apply(s, Event(Land(r, cell.pool), s.time)), cell, n)
  {
    var f, log := s.fetches[r], Log(s, cell.key);
    assert RowOk(log, f.sampledAt, f.sampledTime, f.row.value);
    assert log[..m + 1][m] == log[m];
    assert f.row.value.version == log[m].version;
  }

  // ---- exactly when ----

  lemma OverwrittenAlike(a: seq<Write>, b: seq<Write>, m: nat, n: nat)
    requires LikeWrites(a, b)
    ensures OverwrittenUnlocked(a, m, n) <==> OverwrittenUnlocked(b, m, n)
  {
    if m < n < |a| {
      forall p | 0 <= p <= n ensures a[p].version == b[p].version && a[p].deletes == b[p].deletes && a[p].underLock == b[p].underLock {
        assert PlainWrite(a[p]) == PlainWrite(b[p]);
      }
    }
  }

  /** An unlocked overwrite in any run is hidden in another run with the same history of the key, in any pool. */
  lemma OverwriteCanHide(states: seq<State>, events: seq<Event>, cell: Cell, m: nat, n: nat, wall: int)
      returns (states': seq<State>, events': seq<Event>)
    requires Run(states, events) && OverwrittenUnlocked(Log(Last(states), cell.key), m, n) && 0 <= wall <= MAX_PHYSICAL
    ensures Run(states', events') && LikeWrites(Log(Last(states), cell.key), Log(Last(states'), cell.key))
    ensures AllInvalidated(states', events', |events'|, cell, n) && Hides(Last(states'), cell, n)
  {
    var unused, k := Unused(events), cell.key;
    var c := ClockId(unused, k.shard);
    UnusedIsAbove(events);
    states', events' := InsertRead(states, events, k, m + 1, unused, c, wall);
    assert LikeWrites(Log(Last(states), k), Log(Last(states'), k));
    OverwrittenAlike(Log(Last(states), k), Log(Last(states'), k), m, n);
    states', events' := InvalidateThrough(states', events', cell, n + 1);
    states', events' := LandIt(states', events', cell, unused, m, n);
  }

  /** In every run with this history of the key, a pool that processed all the invalidations up to n shows n. */
  ghost predicate AlwaysShown(history: seq<Write>, k: Key, n: nat) {
    forall states: seq<State>, events: seq<Event>, pool: nat ::
      Run(states, events) && LikeWrites(history, Log(Last(states), k))
      && AllInvalidated(states, events, |events|, Cell(pool, k), n)
      ==> !Hides(Last(states), Cell(pool, k), n)
  }

  /**
   Exactness. For the history of a key in any run, with any number of engines and any clocks: write n is shown,
   whenever its invalidation and those of all writes before it were processed and kept, if and only if no row
   before it was overwritten without its lock while outranking everything up to n.
   */
  lemma ShownIffNotOverwrittenUnlocked(states: seq<State>, events: seq<Event>, k: Key, n: nat)
    requires Run(states, events) && n < |Log(Last(states), k)|
    ensures AlwaysShown(Log(Last(states), k), k, n) <==> !exists m: nat :: OverwrittenUnlocked(Log(Last(states), k), m, n)
  {
    var history := Log(Last(states), k);
    if m: nat :| OverwrittenUnlocked(history, m, n) {
      var states', events' := OverwriteCanHide(states, events, Cell(0, k), m, n, 0);
      assert !AlwaysShown(history, k, n);
    } else {
      forall states': seq<State>, events': seq<Event>, pool: nat |
        Run(states', events') && LikeWrites(history, Log(Last(states'), k))
        && AllInvalidated(states', events', |events'|, Cell(pool, k), n)
        ensures !Hides(Last(states'), Cell(pool, k), n)
      {
        NotOverwrittenNotHidden(states', events', Cell(pool, k), n, history);
      }
    }
  }

  lemma NotOverwrittenNotHidden(states: seq<State>, events: seq<Event>, cell: Cell, n: nat, history: seq<Write>)
    requires Run(states, events) && LikeWrites(history, Log(Last(states), cell.key)) && n < |history|
    requires AllInvalidated(states, events, |events|, cell, n) && !exists m: nat :: OverwrittenUnlocked(history, m, n)
    ensures !Hides(Last(states), cell, n)
  {
    if SlotAt(Last(states), cell).entry.Some? {
      forall m: nat ensures !OverwrittenUnlocked(Log(Last(states), cell.key), m, n) {
        OverwrittenAlike(history, Log(Last(states), cell.key), m, n);
      }
      AllInvalidatedShowsTheWrite(states, events, |events|, cell, n);
    }
  }
}
