/**
 Which deployments keep read-own-writes without invalidation: those with one clock for the shard, exactly.

 A deployment is the set of clocks its engines use; every engine has one of its own for each shard it serves.
 */
module Deployments {
  import opened Common
  import opened Hlc
  import opened Protocol
  import opened Guarantees
  import opened Limits
  import CacheSlot

  predicate UsesOnly(step: Step, clocks: set<ClockId>) {
    match step
    case Begin(_, c) => c in clocks
    case Sample(_, c, _, _) => c in clocks
    case _ => true
  }

  ghost predicate RunsOnClocks(events: seq<Event>, clocks: set<ClockId>) {
    forall i :: 0 <= i < |events| ==> UsesOnly(events[i].step, clocks)
  }

  ghost predicate Within(s: State, clocks: set<ClockId>) {
    (forall t :: t in s.txns ==> s.txns[t].clock in clocks) && forall r :: r in s.fetches ==> s.fetches[r].clock in clocks
  }

  lemma WithinStep(s: State, e: Event, clocks: set<ClockId>)
    requires Within(s, clocks) && Enabled(s, e.step) && UsesOnly(e.step, clocks)
    ensures Within(Apply(s, e), clocks)
  {
  }

  lemma {:induction false} RunStaysWithin(states: seq<State>, events: seq<Event>, clocks: set<ClockId>, j: nat)
    requires Run(states, events) && RunsOnClocks(events, clocks) && j < |states|
    ensures Within(states[j], clocks)
  {
    if j > 0 {
      RunStaysWithin(states, events, clocks, j - 1);
      assert Follows(states[j - 1], events[j - 1], states[j]);
      WithinStep(states[j - 1], events[j - 1], clocks);
    }
  }

  ghost predicate OneClock(clocks: set<ClockId>, shard: nat) {
    forall a, b :: a in clocks && b in clocks && a.shard == shard && b.shard == shard ==> a == b
  }

  /** Acknowledged write n is hidden from its session by the hit at j, and not for the stamp-to-commit window. */
  ghost predicate HidesOwnWrite(states: seq<State>, events: seq<Event>, i: nat, j: nat, n: nat) {
    && Run(states, events) && i < j < |events| && events[i].step.Ack? && events[j].step.Hit?
    && events[i].step.session == events[j].step.session && ChecksWatermark(events[j].step.level)
    && var k, cell := events[j].step.cell.key, events[j].step.cell;
       && n < |Log(states[j], k)| && Log(states[j], k)[n].txn == events[i].step.txn
       && (forall m :: i < m < j ==> events[m].step != Forget(events[i].step.session, k.shard))
       && Hides(states[j], cell, n)
       && !ReadInWindow(states[j].fetches[SlotAt(states[j], cell).entry.value.payload], Log(states[j], k)[n])
  }

  ghost predicate KeepsOwnWrites(clocks: set<ClockId>, shard: nat) {
    forall states: seq<State>, events: seq<Event>, i: nat, j: nat, n: nat ::
      RunsOnClocks(events, clocks) && HidesOwnWrite(states, events, i, j, n) ==> events[j].step.cell.key.shard != shard
  }

  lemma OneClockHidesNothing(states: seq<State>, events: seq<Event>, i: nat, j: nat, n: nat, clocks: set<ClockId>)
    requires RunsOnClocks(events, clocks) && HidesOwnWrite(states, events, i, j, n)
    ensures !OneClock(clocks, events[j].step.cell.key.shard)
  {
    var cell := events[j].step.cell;
    RunStaysWithin(states, events, clocks, j);
    RunKeepsInv(states, events, j);
    var s := states[j];
    assert WriteOk(s, cell.key, s.log[cell.key][n]);
    assert EntryOk(s, cell.key, s.slots[cell].entry.value);
    if OneClock(clocks, cell.key.shard) {
      assert SameClock(s, cell, n);
      ReadOwnWrites(states, events, i, j, n);
    }
  }

  /** Exactly: a deployment keeps read-own-writes on a shard, outside the window, if and only if one clock serves it. */
  lemma OwnWritesKeptIffOneClock(clocks: set<ClockId>, shard: nat)
    ensures KeepsOwnWrites(clocks, shard) <==> OneClock(clocks, shard)
  {
    if OneClock(clocks, shard) {
      forall states: seq<State>, events: seq<Event>, i: nat, j: nat, n: nat |
        RunsOnClocks(events, clocks) && HidesOwnWrite(states, events, i, j, n)
        ensures events[j].step.cell.key.shard != shard
      {
        OneClockHidesNothing(states, events, i, j, n, clocks);
      }
    } else {
      var a, b :| a in clocks && b in clocks && a.shard == shard && b.shard == shard && a != b;
      var states, events := ClockAheadHidesOwnWrite(a, b, Key(shard, 0));
      assert RunsOnClocks(events, clocks);
      assert !KeepsOwnWrites(clocks, shard);
    }
  }

  // ---- any two clocks: the reading engine's is ahead of the writing one's ----

  predicate TwoClocks(a: ClockId, b: ClockId, k: Key) { a != b && a.shard == b.shard == k.shard }

  function NewTxn(b: ClockId): Txn { Txn(b, map[], None, true, {}) }

  function OpenTxn(b: ClockId): Txn { Txn(b, map[], Some(Stamp(V1, 4)), true, {}) }

  function DoneTxn(b: ClockId, k: Key): Txn { Txn(b, map[], Some(Stamp(V1, 4)), false, {k}) }

  function Early(a: ClockId, k: Key): Fetch { Fetch(a, k, V100, 0, 0, Some(Row(0, 0, true, 1))) }

  function Insert(k: Key): map<Key, seq<Write>> { map[k := [Write(1, V1, false, false, 4, 5, 0)]] }

  function Pool(k: Key): map<Cell, Slot> {
    map[Cell(0, k) := CacheSlot.Slot(Some(CacheSlot.Entry(0, V100, 2, [])), None)]
  }

  function B1(a: ClockId, k: Key): State {
    State(1, 0, map[a := V100], map[], map[], map[], map[2 := Fetch(a, k, V100, 0, 0, None)], map[], map[])
  }

  function B2(a: ClockId, k: Key): State { State(2, 0, map[a := V100], map[], map[], map[], map[2 := Early(a, k)], map[], map[]) }

  function B3(a: ClockId, b: ClockId, k: Key): State {
    State(3, 0, map[a := V100], map[1 := NewTxn(b)], map[], map[], map[2 := Early(a, k)], map[], map[])
  }

  function B4(a: ClockId, b: ClockId, k: Key): State {
    State(4, 0, map[a := V100, b := 0], map[1 := NewTxn(b)], map[], map[], map[2 := Early(a, k)], map[], map[])
  }

  function B5(a: ClockId, b: ClockId, k: Key): State {
    State(5, 0, map[a := V100, b := V1], map[1 := OpenTxn(b)], map[], map[], map[2 := Early(a, k)], map[], map[])
  }

  function B6(a: ClockId, b: ClockId, k: Key): State {
    State(6, 0, map[a := V100, b := V1], map[1 := DoneTxn(b, k)], map[], Insert(k), map[2 := Early(a, k)], map[], map[])
  }

  function B7(a: ClockId, b: ClockId, k: Key): State {
    State(7, 0, map[a := V100, b := V1], map[1 := DoneTxn(b, k)], map[], Insert(k), map[2 := Early(a, k)], Pool(k), map[])
  }

  function B8(a: ClockId, b: ClockId, k: Key): State {
    State(8, 0, map[a := V100, b := V1], map[1 := DoneTxn(b, k)], map[], Insert(k), map[2 := Early(a, k)], Pool(k),
          map[Session(7, k.shard) := V1])
  }

  function B9(a: ClockId, b: ClockId, k: Key): State { B8(a, b, k).(tick := 9) }

  lemma AheadReads(a: ClockId, k: Key)
    requires a.shard == k.shard
    ensures Follows(Init(0), At(Sample(2, a, k, 100)), B1(a, k)) && Follows(B1(a, k), At(FetchRow(2)), B2(a, k))
  {
  }

  lemma BehindBegins(a: ClockId, b: ClockId, k: Key)
    requires TwoClocks(a, b, k)
    ensures Follows(B2(a, k), At(Begin(1, b)), B3(a, b, k)) && Follows(B3(a, b, k), At(Lock(1, k)), B4(a, b, k))
  {
  }

  lemma BehindStamps(a: ClockId, b: ClockId, k: Key)
    requires TwoClocks(a, b, k)
    ensures Follows(B4(a, b, k), At(DoStamp(1, 1)), B5(a, b, k))
  {
  }

  lemma BehindCommits(a: ClockId, b: ClockId, k: Key)
    requires TwoClocks(a, b, k)
    ensures Follows(B5(a, b, k), At(Commit(1, map[k := false])), B6(a, b, k))
  {
    CommitsOne(B5(a, b, k), 1, k, Insert(k)[k][0], B6(a, b, k));
  }

  lemma AheadLands(a: ClockId, b: ClockId, k: Key)
    requires TwoClocks(a, b, k)
    ensures Follows(B6(a, b, k), At(Land(2, 0)), B7(a, b, k)) && Follows(B7(a, b, k), At(Ack(1, 7)), B8(a, b, k))
  {
  }

  lemma AheadIsServed(a: ClockId, b: ClockId, k: Key)
    requires TwoClocks(a, b, k)
    ensures Follows(B8(a, b, k), At(Hit(7, Cell(0, k), SessionLevel, 0, 0)), B9(a, b, k))
  {
  }

  lemma AheadRuns(a: ClockId, b: ClockId, k: Key) returns (states: seq<State>, events: seq<Event>)
    requires TwoClocks(a, b, k)
    ensures Reaches(states, events, B5(a, b, k)) && |states| == 6 && RunsOnClocks(events, {a, b})
  {
    AheadReads(a, k);
    BehindBegins(a, b, k);
    BehindStamps(a, b, k);
    states, events := [Init(0)], [];
    states, events := RunsOn(states, events, Init(0), Sample(2, a, k, 100), B1(a, k));
    states, events := RunsOn(states, events, B1(a, k), FetchRow(2), B2(a, k));
    states, events := RunsOn(states, events, B2(a, k), Begin(1, b), B3(a, b, k));
    states, events := RunsOn(states, events, B3(a, b, k), Lock(1, k), B4(a, b, k));
    states, events := RunsOn(states, events, B4(a, b, k), DoStamp(1, 1), B5(a, b, k));
  }

  /**
   Any two clocks of a shard will do: a read sampled and fetched wholly before the write was even begun, by an
   engine whose clock runs ahead, still passes the watermark check and hides the write.
   */
  lemma ClockAheadHidesOwnWrite(a: ClockId, b: ClockId, k: Key) returns (states: seq<State>, events: seq<Event>)
    requires TwoClocks(a, b, k)
    ensures RunsOnClocks(events, {a, b}) && HidesOwnWrite(states, events, 7, 8, 0) && events[8].step.cell.key == k
  {
    BehindCommits(a, b, k);
    AheadLands(a, b, k);
    AheadIsServed(a, b, k);
    states, events := AheadRuns(a, b, k);
    states, events := RunsOn(states, events, B5(a, b, k), Commit(1, map[k := false]), B6(a, b, k));
    states, events := RunsOn(states, events, B6(a, b, k), Land(2, 0), B7(a, b, k));
    states, events := RunsOn(states, events, B7(a, b, k), Ack(1, 7), B8(a, b, k));
    states, events := RunsOn(states, events, B8(a, b, k), Hit(7, Cell(0, k), SessionLevel, 0, 0), B9(a, b, k));
  }
}
