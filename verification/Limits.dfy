/**
 Runs that show why the guarantees carry the conditions they do. Each is a concrete run of the protocol
 machine, written out state by state.
 */
module Limits {
  import opened Common
  import opened Hlc
  import opened Protocol
  import opened Guarantees
  import CacheSlot

  const K: Key := Key(0, 0)
  const HOME: Cell := Cell(0, K)
  const FIRST: ClockId := ClockId(0, 0)
  const SECOND: ClockId := ClockId(1, 0)

  /** The first version a clock issues when its wall clock reads one millisecond, fifty, a hundred. */
  const V1: Version := 65536
  const V50: Version := 3276800
  const V100: Version := 6553600

  const MARK: map<Session, Version> := map[Session(7, 0) := V1]

  function At(step: Step): Event { Event(step, 0) }

  function Filled(fill: Version): map<Cell, Slot> {
    map[HOME := CacheSlot.Slot(Some(CacheSlot.Entry(0, fill, 2, [])), None)]
  }

  /** One key is committed, by a transaction that holds its lock or by one that holds none. */
  lemma CommitsOne(s: State, t: nat, k: Key, w: Write, s': State)
    requires Enabled(s, Commit(t, map[k := w.deletes])) && w == Committed(s, t, k, w.deletes, 0)
    requires s.time <= 0 && s.locks.Keys <= {k} && (k in s.locks ==> s.locks[k] == t)
    requires s'.log.Keys == s.log.Keys + {k} && s'.log[k] == Log(s, k) + [w]
    requires forall j <- s.log :: j != k ==> s'.log[j] == s.log[j]
    requires s'.txns == s.txns[t := s.txns[t].(open := false, wrote := {k})]
    requires s' == s.(tick := s.tick + 1, time := 0, log := s'.log, txns := s'.txns, locks := map[])
    ensures Follows(s, At(Commit(t, map[k := w.deletes])), s')
  {
    CommitLogs(s, t, k, w);
    assert s'.log == s.log[k := Log(s, k) + [w]];
    assert map[k := w.deletes].Keys == {k};
    assert Unlocked(s, t) == map[];
  }

  lemma CommitLogs(s: State, t: nat, k: Key, w: Write)
    requires Enabled(s, Commit(t, map[k := w.deletes])) && w == Committed(s, t, k, w.deletes, 0)
    ensures LogAfter(s, Commit(t, map[k := w.deletes]), 0) == s.log[k := Log(s, k) + [w]]
  {
    var writes, next := map[k := w.deletes], LogAfter(s, Commit(t, map[k := w.deletes]), 0);
    assert k in writes && writes.Keys == {k};
    assert next.Keys == s.log.Keys + {k};
  }

  /** A run, from its last state. */
  ghost predicate Reaches(states: seq<State>, events: seq<Event>, s: State) {
    Run(states, events) && states[|states| - 1] == s
  }

  lemma RunsOn(states: seq<State>, events: seq<Event>, s: State, step: Step, s': State)
      returns (states': seq<State>, events': seq<Event>)
    requires Reaches(states, events, s) && Follows(s, At(step), s')
    ensures states' == states + [s'] && events' == events + [At(step)] && Reaches(states', events', s')
  {
    states', events' := states + [s'], events + [At(step)];
    RunGoesOn(states, events, At(step), s');
  }

  // ---- one clock: the read samples between stamp and commit ----

  const A_NEW: Txn := Txn(FIRST, map[], None, true, {})
  const A_OPEN: Txn := Txn(FIRST, map[], Some(Stamp(V1, 2)), true, {})
  const A_DONE: Txn := Txn(FIRST, map[], Some(Stamp(V1, 2)), false, {K})
  const A_SAMPLE: Fetch := Fetch(FIRST, K, V1, 3, 0, None)
  const A_READ: Fetch := Fetch(FIRST, K, V1, 3, 0, Some(Row(0, 0, true, 4)))
  const A_LOG: map<Key, seq<Write>> := map[K := [Write(1, V1, false, false, 2, 5, 0)]]

  const A0: State := Init(0)
  const A1: State := State(1, 0, map[], map[1 := A_NEW], map[], map[], map[], map[], map[])
  const A2: State := State(2, 0, map[FIRST := 0], map[1 := A_NEW], map[], map[], map[], map[], map[])
  const A3: State := State(3, 0, map[FIRST := V1], map[1 := A_OPEN], map[], map[], map[], map[], map[])
  const A4: State := State(4, 0, map[FIRST := V1], map[1 := A_OPEN], map[], map[], map[2 := A_SAMPLE], map[], map[])
  const A5: State := State(5, 0, map[FIRST := V1], map[1 := A_OPEN], map[], map[], map[2 := A_READ], map[], map[])
  const A6: State := State(6, 0, map[FIRST := V1], map[1 := A_DONE], map[], A_LOG, map[2 := A_READ], map[], map[])
  const A7: State := State(7, 0, map[FIRST := V1], map[1 := A_DONE], map[], A_LOG, map[2 := A_READ], Filled(V1), map[])
  const A8: State := State(8, 0, map[FIRST := V1], map[1 := A_DONE], map[], A_LOG, map[2 := A_READ], Filled(V1), MARK)

  lemma WindowWrite()
    ensures Follows(A0, At(Begin(1, FIRST)), A1) && Follows(A1, At(Lock(1, K)), A2) && Follows(A2, At(DoStamp(1, 1)), A3)
  {
  }

  lemma WindowRead()
    ensures Follows(A3, At(Sample(2, FIRST, K, 1)), A4) && Follows(A4, At(FetchRow(2)), A5)
  {
  }

  lemma WindowCommit()
    ensures Follows(A5, At(Commit(1, map[K := false])), A6)
  {
    CommitsOne(A5, 1, K, A_LOG[K][0], A6);
  }

  lemma WindowServe()
    ensures Follows(A6, At(Land(2, 0)), A7) && Follows(A7, At(Ack(1, 7)), A8)
  {
  }

  lemma WindowOpens() returns (states: seq<State>, events: seq<Event>)
    ensures Reaches(states, events, A4) && states == [A0, A1, A2, A3, A4]
  {
    WindowWrite();
    WindowRead();
    states, events := [A0], [];
    states, events := RunsOn(states, events, A0, Begin(1, FIRST), A1);
    states, events := RunsOn(states, events, A1, Lock(1, K), A2);
    states, events := RunsOn(states, events, A2, DoStamp(1, 1), A3);
    states, events := RunsOn(states, events, A3, Sample(2, FIRST, K, 1), A4);
  }

  lemma WindowCloses(from: seq<State>, done: seq<Event>) returns (states: seq<State>, events: seq<Event>)
    requires Reaches(from, done, A4)
    ensures Reaches(states, events, A8) && states == from + [A5] + [A6] + [A7] + [A8]
  {
    WindowRead();
    WindowCommit();
    WindowServe();
    states, events := RunsOn(from, done, A4, FetchRow(2), A5);
    states, events := RunsOn(states, events, A5, Commit(1, map[K := false]), A6);
    states, events := RunsOn(states, events, A6, Land(2, 0), A7);
    states, events := RunsOn(states, events, A7, Ack(1, 7), A8);
  }

  lemma WindowRuns() returns (states: seq<State>, events: seq<Event>)
    ensures Reaches(states, events, A8) && states == [A0, A1, A2, A3, A4] + [A5] + [A6] + [A7] + [A8]
  {
    states, events := WindowOpens();
    states, events := WindowCloses(states, events);
  }

  /**
   The window exception of ReadOwnWrites is needed: with one clock and no invalidation, a session is
   served an entry that hides the insert it was just acknowledged.
   */
  lemma WindowHidesOwnWrite() returns (states: seq<State>, events: seq<Event>)
    ensures Reaches(states, events, A8)
    ensures OneClockPerShard(A8) && Enabled(A8, Hit(7, HOME, SessionLevel, 0, 0))
    ensures Log(A8, K)[0].txn == 1 && !Reflects(A8.fetches[2], 0)
    ensures ReadInWindow(A8.fetches[2], Log(A8, K)[0])
  {
    states, events := WindowRuns();
  }

  /** The same run shows the tie BoundedStaleness leaves: everything happens in one instant, and t is zero. */
  lemma TieHidesBoundedWrite() returns (states: seq<State>, events: seq<Event>)
    ensures Reaches(states, events, A8) && forall s <- states :: ClocksWithin(s, 1_000_000)
    ensures Enabled(A8, Hit(7, HOME, Bounded(0), 0, 1_000_000))
    ensures Log(A8, K)[0].committedTime == 0 && !Reflects(A8.fetches[2], 0)
  {
    states, events := WindowRuns();
    WindowClocks();
    assert Physical(V1) == 1;
  }

  lemma WindowClocks()
    ensures ClocksWithin(A0, 1_000_000) && ClocksWithin(A1, 1_000_000) && ClocksWithin(A2, 1_000_000)
    ensures ClocksWithin(A3, 1_000_000) && ClocksWithin(A4, 1_000_000) && ClocksWithin(A5, 1_000_000)
    ensures ClocksWithin(A6, 1_000_000) && ClocksWithin(A7, 1_000_000) && ClocksWithin(A8, 1_000_000)
  {
    assert Physical(V1) == 1;
  }

  // ---- two inserts of a missing row: the locking read locks nothing ----

  const C_FIRST: Txn := Txn(FIRST, map[], Some(Stamp(V1, 4)), true, {})
  const C_SECOND: Txn := Txn(FIRST, map[], Some(Stamp(V1 + 1, 5)), true, {})
  const C_WON: Txn := Txn(FIRST, map[], Some(Stamp(V1 + 1, 5)), false, {K})
  const C_LOST: Txn := Txn(FIRST, map[], Some(Stamp(V1, 4)), false, {K})
  const C_EARLY: Write := Write(2, V1 + 1, false, false, 5, 6, 0)
  const C_LATE: Write := Write(1, V1, false, false, 4, 7, 0)

  const C0: State := Init(0)
  const C1: State := State(1, 0, map[], map[1 := A_NEW], map[], map[], map[], map[], map[])
  const C2: State := State(2, 0, map[], map[1 := A_NEW, 2 := A_NEW], map[], map[], map[], map[], map[])
  const C3: State := State(3, 0, map[FIRST := 0], map[1 := A_NEW, 2 := A_NEW], map[], map[], map[], map[], map[])
  const C4: State := State(4, 0, map[FIRST := 0], map[1 := A_NEW, 2 := A_NEW], map[], map[], map[], map[], map[])
  const C5: State := State(5, 0, map[FIRST := V1], map[1 := C_FIRST, 2 := A_NEW], map[], map[], map[], map[], map[])
  const C6: State := State(6, 0, map[FIRST := V1 + 1], map[1 := C_FIRST, 2 := C_SECOND], map[], map[], map[], map[], map[])
  const C7: State :=
    State(7, 0, map[FIRST := V1 + 1], map[1 := C_FIRST, 2 := C_WON], map[], map[K := [C_EARLY]], map[], map[], map[])
  const C8: State :=
    State(8, 0, map[FIRST := V1 + 1], map[1 := C_LOST, 2 := C_WON], map[], map[K := [C_EARLY, C_LATE]], map[], map[], map[])

  lemma RaceBegin()
    ensures Follows(C0, At(Begin(1, FIRST)), C1) && Follows(C1, At(Begin(2, FIRST)), C2)
  {
  }

  lemma RaceLock()
    ensures Follows(C2, At(Lock(1, K)), C3) && Follows(C3, At(Lock(2, K)), C4)
  {
  }

  lemma RaceStamp()
    ensures Follows(C4, At(DoStamp(1, 1)), C5) && Follows(C5, At(DoStamp(2, 1)), C6)
  {
  }

  lemma RaceCommit()
    ensures Follows(C6, At(Commit(2, map[K := false])), C7)
  {
    CommitsOne(C6, 2, K, C_EARLY, C7);
  }

  lemma RaceOvertaken()
    ensures Follows(C7, At(Commit(1, map[K := false])), C8)
  {
    CommitsOne(C7, 1, K, C_LATE, C8);
  }

  /**
   The lock in VersionDominance is needed: two inserts of the same missing key, even on one clock, can
   commit in the opposite order to their stamps, so the row ends below the version it replaced. It is an
   unlocked overwrite, so (Histories) the second insert can stay hidden when both are invalidated.
   */
  lemma InsertRaceInvertsVersions() returns (states: seq<State>, events: seq<Event>)
    ensures Reaches(states, events, C8)
    ensures Log(C8, K)[1].version < Log(C8, K)[0].version && !Log(C8, K)[1].underLock
    ensures OverwrittenUnlocked(Log(C8, K), 0, 1)
  {
    RaceCommit();
    RaceOvertaken();
    states, events := RaceRuns();
    states, events := RunsOn(states, events, C6, Commit(2, map[K := false]), C7);
    states, events := RunsOn(states, events, C7, Commit(1, map[K := false]), C8);
  }

  lemma RaceRuns() returns (states: seq<State>, events: seq<Event>)
    ensures Reaches(states, events, C6)
  {
    RaceBegin();
    RaceLock();
    RaceStamp();
    states, events := [C0], [];
    states, events := RunsOn(states, events, C0, Begin(1, FIRST), C1);
    states, events := RunsOn(states, events, C1, Begin(2, FIRST), C2);
    states, events := RunsOn(states, events, C2, Lock(1, K), C3);
    states, events := RunsOn(states, events, C3, Lock(2, K), C4);
    states, events := RunsOn(states, events, C4, DoStamp(1, 1), C5);
    states, events := RunsOn(states, events, C5, DoStamp(2, 1), C6);
  }

  // ---- a row inserted, read, and deleted under its lock, all by one engine ----

  const INSERTING: Txn := Txn(FIRST, map[], Some(Stamp(V50, 2)), true, {})
  const INSERTED: Txn := Txn(FIRST, map[], Some(Stamp(V50, 2)), false, {K})
  const LOCKED: Txn := Txn(FIRST, map[K := V50], None, true, {})
  const DELETING: Txn := Txn(FIRST, map[K := V50], Some(Stamp(V100, 8)), true, {})
  const DELETED: Txn := Txn(FIRST, map[K := V50], Some(Stamp(V100, 8)), false, {K})
  const SAMPLE: Fetch := Fetch(FIRST, K, V50, 4, 0, None)
  const READ: Fetch := Fetch(FIRST, K, V50, 4, 0, Some(Row(1, V50, false, 5)))
  const INSERT: Write := Write(1, V50, false, false, 2, 3, 0)
  const DELETE: Write := Write(3, V100, true, true, 8, 9, 0)
  const ONE: map<Key, seq<Write>> := map[K := [INSERT]]
  const TWO: map<Key, seq<Write>> := map[K := [INSERT, DELETE]]
  const GONE: map<nat, Txn> := map[1 := INSERTED, 3 := DELETED]

  const P0: State := Init(0)
  const P1: State := State(1, 0, map[], map[1 := A_NEW], map[], map[], map[], map[], map[])
  const P2: State := State(2, 0, map[FIRST := 0], map[1 := A_NEW], map[], map[], map[], map[], map[])
  const P3: State := State(3, 0, map[FIRST := V50], map[1 := INSERTING], map[], map[], map[], map[], map[])
  const P4: State := State(4, 0, map[FIRST := V50], map[1 := INSERTED], map[], ONE, map[], map[], map[])
  const P5: State := State(5, 0, map[FIRST := V50], map[1 := INSERTED], map[], ONE, map[2 := SAMPLE], map[], map[])
  const P6: State := State(6, 0, map[FIRST := V50], map[1 := INSERTED], map[], ONE, map[2 := READ], map[], map[])
  const P7: State := State(7, 0, map[FIRST := V50], map[1 := INSERTED, 3 := A_NEW], map[], ONE, map[2 := READ], map[], map[])
  const P8: State :=
    State(8, 0, map[FIRST := V50], map[1 := INSERTED, 3 := LOCKED], map[K := 3], ONE, map[2 := READ], map[], map[])
  const P9: State :=
    State(9, 0, map[FIRST := V100], map[1 := INSERTED, 3 := DELETING], map[K := 3], ONE, map[2 := READ], map[], map[])
  const P10: State := State(10, 0, map[FIRST := V100], GONE, map[], TWO, map[2 := READ], map[], map[])

  lemma PrefixInserts()
    ensures Follows(P0, At(Begin(1, FIRST)), P1) && Follows(P1, At(Lock(1, K)), P2) && Follows(P2, At(DoStamp(1, 50)), P3)
  {
  }

  lemma PrefixCommits()
    ensures Follows(P3, At(Commit(1, map[K := false])), P4)
  {
    CommitsOne(P3, 1, K, INSERT, P4);
  }

  lemma PrefixReads()
    ensures Follows(P4, At(Sample(2, FIRST, K, 50)), P5) && Follows(P5, At(FetchRow(2)), P6)
  {
  }

  lemma PrefixLocks()
    ensures Follows(P6, At(Begin(3, FIRST)), P7) && Follows(P7, At(Lock(3, K)), P8)
  {
  }

  lemma PrefixStamps()
    ensures Follows(P8, At(DoStamp(3, 100)), P9)
  {
  }

  lemma PrefixDeletes()
    ensures Follows(P9, At(Commit(3, map[K := true])), P10)
  {
    CommitsOne(P9, 3, K, DELETE, P10);
  }

  lemma PrefixRuns() returns (states: seq<State>, events: seq<Event>)
    ensures Reaches(states, events, P10) && |states| == 11
  {
    PrefixInserts();
    PrefixCommits();
    states, events := [P0], [];
    states, events := RunsOn(states, events, P0, Begin(1, FIRST), P1);
    states, events := RunsOn(states, events, P1, Lock(1, K), P2);
    states, events := RunsOn(states, events, P2, DoStamp(1, 50), P3);
    states, events := RunsOn(states, events, P3, Commit(1, map[K := false]), P4);
    states, events := PrefixRunsOn(states, events);
  }

  lemma PrefixRunsOn(from: seq<State>, done: seq<Event>) returns (states: seq<State>, events: seq<Event>)
    requires Reaches(from, done, P4) && |from| == 5
    ensures Reaches(states, events, P10) && |states| == 11
  {
    PrefixReads();
    PrefixLocks();
    PrefixStamps();
    PrefixDeletes();
    states, events := RunsOn(from, done, P4, Sample(2, FIRST, K, 50), P5);
    states, events := RunsOn(states, events, P5, FetchRow(2), P6);
    states, events := RunsOn(states, events, P6, Begin(3, FIRST), P7);
    states, events := RunsOn(states, events, P7, Lock(3, K), P8);
    states, events := RunsOn(states, events, P8, DoStamp(3, 100), P9);
    states, events := RunsOn(states, events, P9, Commit(3, map[K := true]), P10);
  }

  // ---- one clock: a session is told the row is gone, and is then served it ----

  const ABSENT: Fetch := Fetch(FIRST, K, V100, 10, 0, Some(Row(2, 0, true, 11)))
  const STALE: Slot := CacheSlot.Slot(Some(CacheSlot.Entry(V50, V50, 2, [])), None)

  const D11: State := State(11, 0, map[FIRST := V100], GONE, map[], TWO,
    map[2 := READ, 5 := Fetch(FIRST, K, V100, 10, 0, None)], map[], map[])
  const D12: State := State(12, 0, map[FIRST := V100], GONE, map[], TWO, map[2 := READ, 5 := ABSENT], map[], map[])
  const D13: State := State(13, 0, map[FIRST := V100], GONE, map[], TWO, map[2 := READ, 5 := ABSENT], map[], map[])
  const D14: State := State(14, 0, map[FIRST := V100], GONE, map[], TWO, map[2 := READ, 5 := ABSENT], map[HOME := STALE], map[])

  lemma AbsenceRead()
    ensures Follows(P10, At(Sample(5, FIRST, K, 100)), D11) && Follows(D11, At(FetchRow(5)), D12)
  {
  }

  lemma AbsenceTold()
    ensures Follows(D12, At(Return(5, 7)), D13) && Follows(D13, At(Land(2, 0)), D14)
  {
  }

  lemma AbsenceRuns() returns (states: seq<State>, events: seq<Event>)
    ensures Reaches(states, events, D14) && |states| == 15 && states[12] == D12 && events[12] == At(Return(5, 7))
  {
    AbsenceRead();
    AbsenceTold();
    states, events := PrefixRuns();
    states, events := RunsOn(states, events, P10, Sample(5, FIRST, K, 100), D11);
    states, events := RunsOn(states, events, D11, FetchRow(5), D12);
    states, events := RunsOn(states, events, D12, Return(5, 7), D13);
    states, events := RunsOn(states, events, D13, Land(2, 0), D14);
  }

  lemma AbsenceMisleads()
    ensures OneClockPerShard(D14) && Gave(D12, Return(5, 7), 7) == Some(5)
    ensures D12.fetches[5].row.value.negative && D12.fetches[5].row.value.seen == 2
    ensures Enabled(D14, Hit(7, HOME, SessionLevel, 0, 0)) && SlotAt(D14, HOME).entry.value.payload == 2
    ensures !Reflects(D14.fetches[2], 1) && !ReadInWindow(D14.fetches[2], Log(D14, K)[1])
  {
  }

  /**
   MonotonicReads has to ask about the entry after an absence: "not found" advances no watermark, so with one
   clock and outside every stamp-to-commit window a session that was told a row is gone is served that row.
   */
  lemma DeletedRowServedAfterNotFound() returns (states: seq<State>, events: seq<Event>)
    ensures Run(states, events) && |states| == 15 && states[12] == D12 && states[14] == D14
    ensures events[12] == At(Return(5, 7)) && OneClockPerShard(D14) && Gave(D12, Return(5, 7), 7) == Some(5)
    ensures D12.fetches[5].row.value.negative && D12.fetches[5].row.value.seen == 2
    ensures Enabled(D14, Hit(7, HOME, SessionLevel, 0, 0)) && SlotAt(D14, HOME).entry.value.payload == 2
    ensures !Reflects(D14.fetches[2], 1) && !ReadInWindow(D14.fetches[2], Log(D14, K)[1])
  {
    states, events := AbsenceRuns();
    AbsenceMisleads();
  }

  // ---- two clocks: an insert after another engine's delete, with no two writes overlapping ----

  const B_NEW: Txn := Txn(SECOND, map[], None, true, {})
  const B_CLOCKS: map<ClockId, Version> := map[FIRST := V100, SECOND := V1]
  const CLEARED: Slot := CacheSlot.Slot(None, Some(V1))
  const OUTRANKING: Slot := CacheSlot.Slot(Some(CacheSlot.Entry(V50, V50, 2, [])), Some(V1))

  /** The rest of the run, from tick t on: the deleting engine is done, and the pool knows nothing of the key. */
  function Reborn(t: nat): Txn { Txn(SECOND, map[], Some(Stamp(V1, t + 2)), false, {K}) }

  function Reinsert(t: nat): Write { Write(4, V1, false, false, t + 2, t + 3, 0) }

  function Three(t: nat): map<Key, seq<Write>> { map[K := [INSERT, DELETE, Reinsert(t)]] }

  function Again(t: nat): map<nat, Txn> { map[1 := INSERTED, 3 := DELETED, 4 := Reborn(t)] }

  function E0(t: nat): State { State(t, 0, map[FIRST := V100], GONE, map[], TWO, map[2 := READ], map[], map[]) }

  function E1(t: nat): State {
    State(t + 1, 0, map[FIRST := V100], map[1 := INSERTED, 3 := DELETED, 4 := B_NEW], map[], TWO, map[2 := READ], map[], map[])
  }

  function E2(t: nat): State {
    State(t + 2, 0, map[FIRST := V100, SECOND := 0], map[1 := INSERTED, 3 := DELETED, 4 := B_NEW], map[], TWO,
          map[2 := READ], map[], map[])
  }

  function E3(t: nat): State {
    State(t + 3, 0, B_CLOCKS, map[1 := INSERTED, 3 := DELETED, 4 := Reborn(t).(open := true, wrote := {})], map[], TWO,
          map[2 := READ], map[], map[])
  }

  function E4(t: nat): State { State(t + 4, 0, B_CLOCKS, Again(t), map[], Three(t), map[2 := READ], map[], map[]) }

  function E5(t: nat): State { State(t + 5, 0, B_CLOCKS, Again(t), map[], Three(t), map[2 := READ], map[HOME := CLEARED], map[]) }

  function E6(t: nat): State { State(t + 6, 0, B_CLOCKS, Again(t), map[], Three(t), map[2 := READ], map[HOME := CLEARED], MARK) }

  function E7(t: nat): State {
    State(t + 7, 0, B_CLOCKS, Again(t), map[], Three(t), map[2 := READ], map[HOME := OUTRANKING], MARK)
  }

  lemma RebirthLocks(t: nat)
    ensures Follows(E0(t), At(Begin(4, SECOND)), E1(t)) && Follows(E1(t), At(Lock(4, K)), E2(t))
  {
  }

  lemma RebirthStamps(t: nat)
    ensures Follows(E2(t), At(DoStamp(4, 1)), E3(t))
  {
  }

  lemma RebirthCommits(t: nat)
    ensures Follows(E3(t), At(Commit(4, map[K := false])), E4(t))
  {
    CommitsOne(E3(t), 4, K, Reinsert(t), E4(t));
  }

  lemma RebirthInvalidates(t: nat)
    ensures Follows(E4(t), At(Invalidate(HOME, V1)), E5(t)) && Follows(E5(t), At(Ack(4, 7)), E6(t))
  {
  }

  lemma RebirthServes(t: nat)
    ensures Follows(E6(t), At(Land(2, 0)), E7(t))
  {
  }

  lemma RebirthRuns(from: seq<State>, done: seq<Event>, t: nat) returns (states: seq<State>, events: seq<Event>)
    requires Reaches(from, done, E0(t))
    ensures Reaches(states, events, E4(t)) && |events| == |done| + 4 && done <= events
  {
    RebirthLocks(t);
    RebirthStamps(t);
    RebirthCommits(t);
    states, events := RunsOn(from, done, E0(t), Begin(4, SECOND), E1(t));
    states, events := RunsOn(states, events, E1(t), Lock(4, K), E2(t));
    states, events := RunsOn(states, events, E2(t), DoStamp(4, 1), E3(t));
    states, events := RunsOn(states, events, E3(t), Commit(4, map[K := false]), E4(t));
  }

  lemma RebirthRunsOn(from: seq<State>, done: seq<Event>, t: nat) returns (states: seq<State>, events: seq<Event>)
    requires Reaches(from, done, E4(t))
    ensures Reaches(states, events, E7(t)) && events == done + [At(Invalidate(HOME, V1))] + [At(Ack(4, 7))] + [At(Land(2, 0))]
  {
    RebirthInvalidates(t);
    RebirthServes(t);
    states, events := RunsOn(from, done, E4(t), Invalidate(HOME, V1), E5(t));
    states, events := RunsOn(states, events, E5(t), Ack(4, 7), E6(t));
    states, events := RunsOn(states, events, E6(t), Land(2, 0), E7(t));
  }

  /** The last state hides the acknowledged insert from its session, though no two writes overlapped. */
  predicate Misleads(s: State) {
    && |Log(s, K)| == 3 && Log(s, K)[2].txn == 4 && 2 in s.fetches
    && Log(s, K)[0].committedAt < Log(s, K)[1].stampedAt && Log(s, K)[1].committedAt < Log(s, K)[2].stampedAt
    && Enabled(s, Hit(7, HOME, SessionLevel, 0, 0)) && SlotAt(s, HOME).entry.value.payload == 2
    && !Reflects(s.fetches[2], 2) && !ReadInWindow(s.fetches[2], Log(s, K)[2]) && Outranked(s.fetches[2], Log(s, K), 2)
  }

  lemma RebirthMisleads(t: nat)
    requires t >= 10
    ensures Misleads(E7(t))
  {
  }

  /**
   That every earlier write be invalidated is needed in AllInvalidatedShowsTheWrite, where two clocks write a
   key. An insert after another engine's delete finds no row to learn a version from, so it may be stamped
   below the deleted row. Its invalidation is processed, it is acknowledged, and then an old read of the
   deleted row lands and is served in its place. Here the delete's own invalidation never reached the pool.
   */
  lemma InsertAfterDeleteIsOutranked() returns (states: seq<State>, events: seq<Event>)
    ensures Reaches(states, events, E7(10)) && Misleads(E7(10)) && |events| == 17
    ensures events[14] == At(Invalidate(HOME, V1)) && events[15] == At(Ack(4, 7)) && events[16] == At(Land(2, 0))
  {
    states, events := PrefixRuns();
    states, events := RebirthRuns(states, events, 10);
    states, events := RebirthRunsOn(states, events, 10);
    RebirthMisleads(10);
  }

  /** And that the pool has kept it since: here the delete's invalidation was processed, and its marker then lost. */
  lemma LostMarkerOutranksToo() returns (states: seq<State>, events: seq<Event>)
    ensures Reaches(states, events, E7(12)) && Misleads(E7(12)) && |events| == 19
    ensures events[10] == At(Invalidate(HOME, V100)) && events[11] == At(Lose(HOME))
    ensures events[16] == At(Invalidate(HOME, V1)) && events[17] == At(Ack(4, 7)) && events[18] == At(Land(2, 0))
  {
    states, events := MarkerRuns();
    states, events := RebirthRuns(states, events, 12);
    states, events := RebirthRunsOn(states, events, 12);
    RebirthMisleads(12);
  }

  const MARKED: State := State(11, 0, map[FIRST := V100], GONE, map[], TWO, map[2 := READ],
    map[HOME := CacheSlot.Slot(None, Some(V100))], map[])

  lemma MarkerRuns() returns (states: seq<State>, events: seq<Event>)
    ensures Reaches(states, events, E0(12)) && |events| == 12
    ensures events[10] == At(Invalidate(HOME, V100)) && events[11] == At(Lose(HOME))
  {
    MarkerComesAndGoes();
    states, events := PrefixRuns();
    states, events := RunsOn(states, events, P10, Invalidate(HOME, V100), MARKED);
    states, events := RunsOn(states, events, MARKED, Lose(HOME), E0(12));
  }

  lemma MarkerComesAndGoes()
    ensures Follows(P10, At(Invalidate(HOME, V100)), MARKED) && Follows(MARKED, At(Lose(HOME)), E0(12))
  {
  }
}
