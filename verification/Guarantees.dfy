/**
 What the protocol promises a session, over every run (CONSISTENCY.md section 3, internal/engine/rows.go).

 "Reflects write n of a key" is a statement about the commit order of that key, not about versions:
 the read behind the answer saw more than n of its writes.
 */
module Guarantees {
  import opened Common
  import opened Hlc
  import opened Protocol
  import CacheSlot

  // ---- runs ----

  function Last(states: seq<State>): State
    requires states != []
  {
    states[|states| - 1]
  }

  /** A run goes on with any step its last state allows. */
  lemma RunGoesOn(states: seq<State>, events: seq<Event>, e: Event, s': State)
    requires Run(states, events) && Follows(Last(states), e, s')
    ensures Run(states + [s'], events + [e]) && Last(states + [s']) == s'
  {
  }

  // ---- vocabulary ----

  /** The read that produced the entry a pool holds for a key. */
  function Source(s: State, cell: Cell): Fetch
    requires Inv(s) && SlotAt(s, cell).entry.Some?
  {
    assert EntryOk(s, cell.key, s.slots[cell].entry.value);
    s.fetches[SlotAt(s, cell).entry.value.payload]
  }

  predicate Reflects(f: Fetch, n: nat) { f.row.Some? && f.row.value.seen > n }

  /** The whole read, from its sample to its fetch, fell while the write was stamped and not yet committed. */
  predicate ReadInWindow(f: Fetch, w: Write) {
    w.stampedAt < f.sampledAt && f.row.Some? && f.row.value.at <= w.committedAt
  }

  /**
   The read began after the write was stamped; it may miss the write only by fetching before the commit, and a
   read that began after the commit does not.
   */
  predicate AfterStamp(f: Fetch, w: Write, n: nat) {
    f.sampledAt > w.stampedAt && (f.sampledAt > w.committedAt ==> Reflects(f, n))
  }

  predicate FetchedBefore(f: Fetch, w: Write) { f.row.Some? && f.row.value.at <= w.committedAt }

  predicate OneClockPerShard(s: State) {
    forall t, r :: t in s.txns && r in s.fetches && s.txns[t].clock.shard == s.fetches[r].clock.shard
                   ==> s.txns[t].clock == s.fetches[r].clock
  }

  predicate ChecksWatermark(level: Requirement) { level.SessionLevel? || level.Bounded? }

  /** Nothing acknowledged is missing from the commit order: each key a finished write touched records it. */
  lemma {:induction false} AckedWritesAreLogged(states: seq<State>, events: seq<Event>, j: nat, t: nat, k: Key)
    requires Run(states, events) && j < |states| && t in states[j].txns && k in states[j].txns[t].wrote
    ensures exists n :: 0 <= n < |Log(states[j], k)| && Log(states[j], k)[n].txn == t
  {
    var s, e, s' := states[j - 1], events[j - 1], states[j];
    assert Follows(s, e, s');
    LogGrows(s, e, k);
    if t in s.txns && k in s.txns[t].wrote {
      AckedWritesAreLogged(states, events, j - 1, t, k);
      var n :| 0 <= n < |Log(s, k)| && Log(s, k)[n].txn == t;
      assert Log(s', k)[n].txn == t;
    } else {
      assert e.step.Commit? && e.step.txn == t && k in e.step.writes;
      assert Log(s', k)[|Log(s, k)|].txn == t;
    }
  }

  // ---- freshness by fill version ----

  /** What a fill version says: on one clock, a read filled at or above a write began after the write's stamp. */
  lemma FillVersionDatesTheRead(s: State, r: nat, n: nat)
    requires Inv(s) && r in s.fetches && n < |Log(s, s.fetches[r].key)|
    requires ClockOfWrite(s, Log(s, s.fetches[r].key)[n]) == s.fetches[r].clock
    ensures s.fetches[r].fill >= Log(s, s.fetches[r].key)[n].version <==>
            s.fetches[r].sampledAt > Log(s, s.fetches[r].key)[n].stampedAt
  {
    assert WriteOk(s, s.fetches[r].key, s.log[s.fetches[r].key][n]);
  }

  /**
   The heart of read-own-writes without invalidation: a read filled at or above a write's version, from the
   clock that stamped it, reflects the write, except exactly when the whole read fell between the write's
   stamp and its commit.
   */
  lemma FillVersionProvesFreshness(s: State, r: nat, n: nat)
    requires Inv(s) && r in s.fetches && s.fetches[r].row.Some? && n < |Log(s, s.fetches[r].key)|
    requires ClockOfWrite(s, Log(s, s.fetches[r].key)[n]) == s.fetches[r].clock
    requires s.fetches[r].fill >= Log(s, s.fetches[r].key)[n].version
    ensures Reflects(s.fetches[r], n) <==> !ReadInWindow(s.fetches[r], Log(s, s.fetches[r].key)[n])
    ensures AfterStamp(s.fetches[r], Log(s, s.fetches[r].key)[n], n)
  {
    FillVersionDatesTheRead(s, r, n);
    var f := s.fetches[r];
    assert WriteOk(s, f.key, s.log[f.key][n]);
    assert RowOk(Log(s, f.key), f.sampledAt, f.sampledTime, f.row.value);
  }

  function ClockOfWrite(s: State, w: Write): ClockId {
    if w.txn in s.txns then s.txns[w.txn].clock else ClockId(0, 0)
  }

  /** The read behind the entry a pool holds sampled the clock that stamped write n of the key. */
  predicate SameClock(s: State, cell: Cell, n: nat) {
    SlotAt(s, cell).entry.Some? && SlotAt(s, cell).entry.value.payload in s.fetches && n < |Log(s, cell.key)| ==>
      ClockOfWrite(s, Log(s, cell.key)[n]) == s.fetches[SlotAt(s, cell).entry.value.payload].clock
  }

  /** One clock per shard makes it so everywhere. */
  lemma OneClockIsSame(s: State, cell: Cell, n: nat)
    requires Inv(s) && OneClockPerShard(s)
    ensures SameClock(s, cell, n)
  {
    if SlotAt(s, cell).entry.Some? && n < |Log(s, cell.key)| {
      assert WriteOk(s, cell.key, s.log[cell.key][n]);
      assert EntryOk(s, cell.key, s.slots[cell].entry.value);
    }
  }

  // ---- watermarks over a run ----

  lemma WatermarkStep(s: State, e: Event, w: Session)
    requires Enabled(s, e.step) && w in s.watermarks && e.step != Forget(w.id, w.shard)
    ensures w in Apply(s, e).watermarks && Apply(s, e).watermarks[w] >= s.watermarks[w]
  {
  }

  /**
   What a session learns from a step, exactly: an acknowledgement, a row from the origin, a hit and a position
   handed over raise the watermark of that session on that shard to the version concerned, if that is higher; an
   absence from the origin teaches nothing; and no other watermark moves.
   */
  lemma LearnsExactly(s: State, e: Event, w: Session)
    requires Enabled(s, e.step) && e.step != Forget(w.id, w.shard)
    ensures var was, learned := Watermark(s, w), Learns(s, e.step, w);
            Watermark(Apply(s, e), w) ==
              if learned.None? then was else if was.None? then learned else Some(Max(was.value, learned.value))
  {
  }

  /** The version a step shows a session on a shard. */
  function Learns(s: State, step: Step, w: Session): Option<Version> {
    match step
    case Ack(t, to) =>
      if t in s.txns && s.txns[t].stamp.Some? && w == Session(to, s.txns[t].clock.shard)
      then Some(s.txns[t].stamp.value.version) else None
    case Return(r, to) =>
      if r in s.fetches && s.fetches[r].row.Some? && !s.fetches[r].row.value.negative && w == Session(to, s.fetches[r].key.shard)
      then Some(s.fetches[r].row.value.version) else None
    case Hit(to, cell, _, _, _) =>
      if SlotAt(s, cell).entry.Some? && w == Session(to, cell.key.shard) then Some(SlotAt(s, cell).entry.value.rowVersion) else None
    case Carry(from, to, shard) =>
      if w == Session(to, shard) then Watermark(s, Session(from, shard)) else None
    case _ => None
  }

  /** A watermark never moves back while the token still holds it. */
  lemma {:induction false} WatermarkKept(states: seq<State>, events: seq<Event>, i: nat, j: nat, w: Session)
    requires Run(states, events) && i <= j < |states|
    requires w in states[i].watermarks
    requires forall m :: i <= m < j ==> events[m].step != Forget(w.id, w.shard)
    ensures w in states[j].watermarks && states[j].watermarks[w] >= states[i].watermarks[w]
  {
    if i < j {
      WatermarkKept(states, events, i, j - 1, w);
      assert Follows(states[j - 1], events[j - 1], states[j]);
      WatermarkStep(states[j - 1], events[j - 1], w);
    }
  }

  /** A hit at SESSION or BOUNDED was filled at or above everything the session had seen by an earlier state. */
  lemma HitAboveWatermark(states: seq<State>, events: seq<Event>, i: nat, j: nat, session: nat)
    requires Run(states, events) && i <= j < |events|
    requires events[j].step.Hit? && events[j].step.session == session && ChecksWatermark(events[j].step.level)
    requires var w := Session(session, events[j].step.cell.key.shard);
             w in states[i].watermarks && forall m :: i <= m < j ==> events[m].step != Forget(w.id, w.shard)
    ensures SlotAt(states[j], events[j].step.cell).entry.Some?
    ensures SlotAt(states[j], events[j].step.cell).entry.value.fillVersion
            >= states[i].watermarks[Session(session, events[j].step.cell.key.shard)]
  {
    var w := Session(session, events[j].step.cell.key.shard);
    WatermarkKept(states, events, i, j, w);
    assert Follows(states[j], events[j], states[j + 1]);
  }

  /**
   Read-own-writes without invalidation. In every run, with any number of engines, after a write of k is
   acknowledged to a session, every cache hit that session is served on k from an entry read through the clock
   that stamped the write, from any pool and through any eviction, delay or duplication of fills, reflects the
   write, except exactly when the entry's whole read fell while the write was stamped but not committed. With
   one clock per shard every entry is such an entry (OneClockIsSame). Conditional writes, degraded ones
   included, are among the writes.
   */
  lemma ReadOwnWrites(states: seq<State>, events: seq<Event>, i: nat, j: nat, n: nat)
    requires Run(states, events) && i < j < |events|
    requires events[i].step.Ack? && events[j].step.Hit?
    requires events[i].step.session == events[j].step.session && ChecksWatermark(events[j].step.level)
    requires var k := events[j].step.cell.key;
             && n < |Log(states[j], k)| && Log(states[j], k)[n].txn == events[i].step.txn
             && forall m :: i < m < j ==> events[m].step != Forget(events[i].step.session, k.shard)
    requires SameClock(states[j], events[j].step.cell, n)
    ensures Inv(states[j]) && SlotAt(states[j], events[j].step.cell).entry.Some?
    ensures var f := Source(states[j], events[j].step.cell);
            && (Reflects(f, n) <==> !ReadInWindow(f, Log(states[j], events[j].step.cell.key)[n]))
            && AfterStamp(f, Log(states[j], events[j].step.cell.key)[n], n)
  {
    var t, session, cell := events[i].step.txn, events[i].step.session, events[j].step.cell;
    RunKeepsInv(states, events, i);
    RunKeepsInv(states, events, j);
    assert Follows(states[i], events[i], states[i + 1]);
    TxnKept(states, events, i, j, t);
    assert WriteOk(states[j], cell.key, states[j].log[cell.key][n]);
    HitAboveWatermark(states, events, i + 1, j, session);
    assert EntryOk(states[j], cell.key, states[j].slots[cell].entry.value);
    FillVersionProvesFreshness(states[j], SlotAt(states[j], cell).entry.value.payload, n);
  }

  /**
   Causal propagation: a session that was handed another's watermarks reads that other's writes. A write
   acknowledged to one session, whose position was then carried to a second, is reflected by every later hit of the
   second, as ReadOwnWrites says of the first.
   */
  lemma CarriedWritesAreRead(states: seq<State>, events: seq<Event>, i: nat, h: nat, j: nat, n: nat)
    requires Run(states, events) && i < h < j < |events|
    requires events[i].step.Ack? && events[h].step.Carry? && events[j].step.Hit? && ChecksWatermark(events[j].step.level)
    requires events[h].step.from == events[i].step.session && events[h].step.to == events[j].step.session
    requires var k := events[j].step.cell.key;
             && events[h].step.shard == k.shard
             && n < |Log(states[j], k)| && Log(states[j], k)[n].txn == events[i].step.txn
             && (forall m :: i < m < h ==> events[m].step != Forget(events[i].step.session, k.shard))
             && (forall m :: h < m < j ==> events[m].step != Forget(events[j].step.session, k.shard))
    requires SameClock(states[j], events[j].step.cell, n)
    ensures Inv(states[j]) && SlotAt(states[j], events[j].step.cell).entry.Some?
    ensures var f := Source(states[j], events[j].step.cell);
            && (Reflects(f, n) <==> !ReadInWindow(f, Log(states[j], events[j].step.cell.key)[n]))
            && AfterStamp(f, Log(states[j], events[j].step.cell.key)[n], n)
  {
    var t, cell := events[i].step.txn, events[j].step.cell;
    var w := Session(events[i].step.session, cell.key.shard);
    RunKeepsInv(states, events, i);
    RunKeepsInv(states, events, j);
    assert Follows(states[i], events[i], states[i + 1]);
    TxnKept(states, events, i, j, t);
    assert WriteOk(states[j], cell.key, states[j].log[cell.key][n]);
    WatermarkKept(states, events, i + 1, h, w);
    assert Follows(states[h], events[h], states[h + 1]);
    HitAboveWatermark(states, events, h + 1, j, events[j].step.session);
    assert EntryOk(states[j], cell.key, states[j].slots[cell].entry.value);
    FillVersionProvesFreshness(states[j], SlotAt(states[j], cell).entry.value.payload, n);
  }

  lemma {:induction false} TxnKept(states: seq<State>, events: seq<Event>, i: nat, j: nat, t: nat)
    requires Run(states, events) && i <= j < |states| && t in states[i].txns && !states[i].txns[t].open
    ensures t in states[j].txns && states[j].txns[t] == states[i].txns[t]
  {
    if i < j {
      TxnKept(states, events, i, j - 1, t);
      assert Follows(states[j - 1], events[j - 1], states[j]);
      TxnGrows(states[j - 1], events[j - 1], t);
    }
  }

  /** The read whose row a step gave a session, from the origin or from a pool. */
  function Gave(s: State, step: Step, session: nat): Option<nat> {
    match step
    case Return(r, to) => if to == session then Some(r) else None
    case Hit(to, cell, _, _, _) =>
      if to == session && SlotAt(s, cell).entry.Some? then Some(SlotAt(s, cell).entry.value.payload) else None
    case _ => None
  }

  lemma {:induction false} FetchKept(states: seq<State>, events: seq<Event>, i: nat, j: nat, r: nat)
    requires Run(states, events) && i <= j < |states| && r in states[i].fetches && states[i].fetches[r].row.Some?
    ensures r in states[j].fetches && states[j].fetches[r] == states[i].fetches[r]
  {
    if i < j {
      FetchKept(states, events, i, j - 1, r);
      assert Follows(states[j - 1], events[j - 1], states[j]);
      FetchGrows(states[j - 1], events[j - 1], r);
    }
  }

  /** What a session was given is a row some read fetched, and its watermark covers that row's version. */
  lemma GivenRow(states: seq<State>, events: seq<Event>, i: nat, session: nat)
    requires Run(states, events) && i < |events| && Gave(states[i], events[i].step, session).Some?
    ensures var r := Gave(states[i], events[i].step, session).value;
            && r in states[i].fetches && states[i].fetches[r].row.Some?
            && (!states[i].fetches[r].row.value.negative ==>
                  var w := Session(session, states[i].fetches[r].key.shard);
                  && w in states[i + 1].watermarks
                  && states[i + 1].watermarks[w] >= states[i].fetches[r].row.value.version)
  {
    RunKeepsInv(states, events, i);
    assert Follows(states[i], events[i], states[i + 1]);
    if events[i].step.Hit? {
      var cell := events[i].step.cell;
      assert EntryOk(states[i], cell.key, states[i].slots[cell].entry.value);
    }
  }

  /**
   Monotonic reads, absences included. With one clock per shard, take any answer a session was given for k,
   from the database or from any pool: a row, or "not found". Every later hit it is served on k from an entry
   filled at or above the write behind that answer reflects the write, except exactly when the entry's whole
   read fell in the write's stamp-to-commit window. For a row, every hit is such an entry, because the
   watermark saw to it. An absence advances no watermark, so there it has to be asked of the entry; where the
   entry is older, its read began before the write was stamped, and it reflects it only if it fetched after the commit.
   */
  lemma MonotonicReads(states: seq<State>, events: seq<Event>, i: nat, j: nat, session: nat)
    requires Run(states, events) && i < j < |events|
    requires Gave(states[i], events[i].step, session).Some?
    requires events[j].step.Hit? && events[j].step.session == session && ChecksWatermark(events[j].step.level)
    requires var r := Gave(states[i], events[i].step, session).value;
             r in states[i].fetches ==> states[i].fetches[r].key == events[j].step.cell.key
    requires forall m :: i < m < j ==> events[m].step != Forget(session, events[j].step.cell.key.shard)
    requires OneClockPerShard(states[j])
    ensures Inv(states[j]) && SlotAt(states[j], events[j].step.cell).entry.Some?
    ensures var r := Gave(states[i], events[i].step, session).value;
            && r in states[i].fetches && states[i].fetches[r].row.Some?
            && KeepsAnswer(states[j], events[j].step.cell, states[i].fetches[r].row.value)
  {
    var r, cell := Gave(states[i], events[i].step, session).value, events[j].step.cell;
    GivenRow(states, events, i, session);
    FetchKept(states, events, i, j, r);
    RunKeepsInv(states, events, j);
    assert Follows(states[j], events[j], states[j + 1]);
    var row := states[j].fetches[r].row.value;
    AnswerIsLogged(states[j], r);
    if !row.negative {
      HitAboveWatermark(states, events, i + 1, j, session);
    }
    if row.seen > 0 {
      EntryByFillVersion(states[j], cell, row.seen - 1);
    }
  }

  /** An answer is the state some commit of its key left; a row carries that commit's version. */
  lemma AnswerIsLogged(s: State, r: nat)
    requires Inv(s) && r in s.fetches && s.fetches[r].row.Some?
    ensures var row, log := s.fetches[r].row.value, Log(s, s.fetches[r].key);
            row.seen <= |log| && (!row.negative ==> row.seen > 0 && log[row.seen - 1].version == row.version)
  {
    var f := s.fetches[r];
    assert RowOk(Log(s, f.key), f.sampledAt, f.sampledTime, f.row.value);
  }

  /** What an entry in a pool means to a session that was given this row, or absence, of the key before. */
  ghost predicate KeepsAnswer(s: State, cell: Cell, row: Row)
    requires Inv(s) && SlotAt(s, cell).entry.Some?
  {
    && row.seen <= |Log(s, cell.key)|
    && (!row.negative ==> row.seen > 0 && FilledFrom(s, cell, row.seen - 1))
    && (row.seen > 0 ==> DatedBy(s, cell, row.seen - 1))
  }

  /**
   An entry filled at or above write n reflects it, except exactly in the window; an older one was read from
   before the write was stamped, and reflects it exactly if it fetched after the commit.
   */
  ghost predicate DatedBy(s: State, cell: Cell, n: nat)
    requires Inv(s) && SlotAt(s, cell).entry.Some? && n < |Log(s, cell.key)|
  {
    var f, w := Source(s, cell), Log(s, cell.key)[n];
    if FilledFrom(s, cell, n) then (Reflects(f, n) <==> !ReadInWindow(f, w)) && AfterStamp(f, w, n)
    else f.sampledAt <= w.stampedAt && (Reflects(f, n) <==> !FetchedBefore(f, w))
  }

  /** Both kinds of entry, by whether they were filled at or above a write. */
  lemma EntryByFillVersion(s: State, cell: Cell, n: nat)
    requires Inv(s) && SlotAt(s, cell).entry.Some? && n < |Log(s, cell.key)| && OneClockPerShard(s)
    ensures DatedBy(s, cell, n)
  {
    assert WriteOk(s, cell.key, s.log[cell.key][n]);
    assert EntryOk(s, cell.key, s.slots[cell].entry.value);
    var f := Source(s, cell);
    assert RowOk(Log(s, cell.key), f.sampledAt, f.sampledTime, f.row.value);
    OneClockIsSame(s, cell, n);
    FillVersionDatesTheRead(s, SlotAt(s, cell).entry.value.payload, n);
    if FilledFrom(s, cell, n) {
      FillVersionProvesFreshness(s, SlotAt(s, cell).entry.value.payload, n);
    }
  }

  /** The entry the pool holds was filled at or above write n of its key. */
  predicate FilledFrom(s: State, cell: Cell, n: nat) {
    SlotAt(s, cell).entry.Some? && n < |Log(s, cell.key)|
    && SlotAt(s, cell).entry.value.fillVersion >= Log(s, cell.key)[n].version
  }

  /** The pool holds an entry for the key whose read missed write n. */
  predicate Hides(s: State, cell: Cell, n: nat) {
    && SlotAt(s, cell).entry.Some? && SlotAt(s, cell).entry.value.payload in s.fetches
    && !Reflects(s.fetches[SlotAt(s, cell).entry.value.payload], n)
  }

  // ---- freshness by invalidation ----

  lemma LevelStep(states: seq<State>, events: seq<Event>, m: nat, cell: Cell)
    requires Run(states, events) && m < |events| && events[m].step != Lose(cell)
    ensures CacheSlot.Level(SlotAt(states[m + 1], cell)) >= CacheSlot.Level(SlotAt(states[m], cell))
  {
    RunKeepsInv(states, events, m);
    assert Follows(states[m], events[m], states[m + 1]);
    assert CacheSlot.Wf(SlotAt(states[m], cell));
  }

  lemma {:induction false} LevelKept(states: seq<State>, events: seq<Event>, i: nat, j: nat, cell: Cell)
    requires Run(states, events) && i <= j < |states|
    requires forall m :: i <= m < j ==> events[m].step != Lose(cell)
    ensures CacheSlot.Level(SlotAt(states[j], cell)) >= CacheSlot.Level(SlotAt(states[i], cell))
  {
    if i < j {
      LevelKept(states, events, i, j - 1, cell);
      LevelStep(states, events, j - 1, cell);
    }
  }

  /**
   Acked-write floor. With any number of engines and any clocks: once an invalidation of a key at v has
   been processed by a pool, applied or rejected, no later entry there has a row version below v until
   the pool loses the key.
   */
  lemma InvalidationFloor(states: seq<State>, events: seq<Event>, i: nat, j: nat)
    requires Run(states, events) && i < j < |states| && events[i].step.Invalidate?
    requires forall m :: i < m < j ==> events[m].step != Lose(events[i].step.cell)
    ensures SlotAt(states[j], events[i].step.cell).entry.Some? ==>
              SlotAt(states[j], events[i].step.cell).entry.value.rowVersion >= events[i].step.version
  {
    var cell, v := events[i].step.cell, events[i].step.version;
    RunKeepsInv(states, events, i);
    RunKeepsInv(states, events, j);
    assert Follows(states[i], events[i], states[i + 1]);
    assert CacheSlot.Wf(SlotAt(states[i], cell));
    CacheSlot.TombstoneLevel(SlotAt(states[i], cell), v);
    LevelKept(states, events, i + 1, j, cell);
    assert CacheSlot.Wf(SlotAt(states[j], cell));
  }

  /** The write's version exceeds that of every earlier write of the key. */
  predicate Dominates(log: seq<Write>, n: nat)
    requires n < |log|
  {
    forall m :: 0 <= m < n ==> log[m].version < log[n].version
  }

  /** With any clocks, a stretch of writes each replacing a locked row has increasing versions. */
  lemma {:induction false} LockedWritesDominate(s: State, k: Key, p: nat, n: nat)
    requires Inv(s) && p <= n < |Log(s, k)| && forall m :: p < m <= n ==> Log(s, k)[m].underLock
    ensures forall m :: p <= m < n ==> Log(s, k)[m].version < Log(s, k)[n].version
  {
    if p < n {
      LockedWritesDominate(s, k, p, n - 1);
      assert s.log[k][n].underLock;
    }
  }

  predicate StampedLast(log: seq<Write>, n: nat)
    requires n < |log|
  {
    StampedBefore(log[..n], log[n].stampedAt)
  }

  /** Every write of the key was stamped by one clock. */
  ghost predicate OneWriterClock(s: State, k: Key) {
    forall m, n :: 0 <= m < |Log(s, k)| && 0 <= n < |Log(s, k)| ==> ClockOfWrite(s, Log(s, k)[m]) == ClockOfWrite(s, Log(s, k)[n])
  }

  /** Where one clock stamps a key's writes, to have the highest version so far is to have been stamped last. */
  lemma DominatesIffStampedLast(s: State, k: Key, n: nat)
    requires Inv(s) && OneWriterClock(s, k) && n < |Log(s, k)|
    ensures Dominates(Log(s, k), n) <==> StampedLast(Log(s, k), n)
  {
    forall m | 0 <= m < n
      ensures Log(s, k)[m].version < Log(s, k)[n].version <==> Log(s, k)[..n][m].stampedAt < Log(s, k)[n].stampedAt
    {
      VersionsFollowStamps(s, k, m, n);
    }
  }

  lemma VersionsFollowStamps(s: State, k: Key, m: nat, n: nat)
    requires Inv(s) && OneWriterClock(s, k) && m < |Log(s, k)| && n < |Log(s, k)|
    ensures Log(s, k)[m].version < Log(s, k)[n].version <==> Log(s, k)[m].stampedAt < Log(s, k)[n].stampedAt
  {
    var v, w := Log(s, k)[m], Log(s, k)[n];
    assert WriteOk(s, k, s.log[k][m]) && WriteOk(s, k, s.log[k][n]);
    assert ClockOfWrite(s, v) == ClockOfWrite(s, w);
    assert InStampOrder(s.txns[v.txn].stamp, s.txns[w.txn].stamp);
    assert InStampOrder(s.txns[w.txn].stamp, s.txns[v.txn].stamp);
  }

  /** With any clocks, a write that replaced a row under its lock was stamped after every earlier write of the key. */
  lemma LockedIsStampedLast(s: State, k: Key, n: nat)
    requires Inv(s) && n < |Log(s, k)| && Log(s, k)[n].underLock
    ensures StampedLast(Log(s, k), n)
  {
    assert s.log[k][n].underLock;
  }

  /** The read saw, as the key's newest row, one left by a write committed before n at a version no lower. */
  predicate Outranked(f: Fetch, log: seq<Write>, n: nat)
    requires n < |log|
  {
    f.row.Some? && 0 < f.row.value.seen <= n && log[f.row.value.seen - 1].version >= log[n].version
  }

  /**
   Visibility by invalidation, with any number of engines, any clocks and any session: once an invalidation at
   or above a write's version has been processed by a pool that has not lost the key since, the entry the pool
   holds reflects the write, if and only if it is not the row of an earlier commit that outranks it.
   */
  lemma InvalidationMakesWritesVisible(states: seq<State>, events: seq<Event>, i: nat, j: nat, n: nat)
    requires Run(states, events) && i < j < |states| && events[i].step.Invalidate?
    requires forall m :: i < m < j ==> events[m].step != Lose(events[i].step.cell)
    requires var cell := events[i].step.cell;
             && n < |Log(states[j], cell.key)| && Log(states[j], cell.key)[n].version <= events[i].step.version
             && SlotAt(states[j], cell).entry.Some?
    ensures Inv(states[j])
    ensures var f, log := Source(states[j], events[i].step.cell), Log(states[j], events[i].step.cell.key);
            && (Reflects(f, n) <==> !Outranked(f, log, n))
            && (Dominates(log, n) ==> Reflects(f, n))
  {
    var cell := events[i].step.cell;
    InvalidationFloor(states, events, i, j);
    RunKeepsInv(states, events, j);
    assert WriteOk(states[j], cell.key, states[j].log[cell.key][n]);
    assert EntryOk(states[j], cell.key, states[j].slots[cell].entry.value);
    var f := Source(states[j], cell);
    assert RowOk(Log(states[j], cell.key), f.sampledAt, f.sampledTime, f.row.value);
    if !Reflects(f, n) {
      assert f.row.value.seen > 0;
      assert Log(states[j], cell.key)[f.row.value.seen - 1].version == f.row.value.version;
    }
  }

  /** An invalidation of the cell at v or above was processed before state j, and the pool kept the key since. */
  ghost predicate InvalidatedAt(events: seq<Event>, j: nat, cell: Cell, v: Version) {
    exists i :: 0 <= i < j && i < |events| && Invalidated(events, i, j, cell, v)
  }

  ghost predicate Invalidated(events: seq<Event>, i: nat, j: nat, cell: Cell, v: Version)
    requires i < |events|
  {
    && events[i].step.Invalidate? && events[i].step.cell == cell && events[i].step.version >= v
    && forall m :: i < m < j && m < |events| ==> events[m].step != Lose(cell)
  }

  /** Every write of the key up to n had its invalidation processed by the pool, and none was lost since. */
  ghost predicate AllInvalidated(states: seq<State>, events: seq<Event>, j: nat, cell: Cell, n: nat)
    requires j < |states|
  {
    forall p :: 0 <= p <= n && p < |Log(states[j], cell.key)| ==> InvalidatedAt(events, j, cell, Log(states[j], cell.key)[p].version)
  }

  /** The row write m left was overwritten without its lock, and no write up to n was stamped above it. */
  ghost predicate OverwrittenUnlocked(log: seq<Write>, m: nat, n: nat) {
    && m < n < |log| && !log[m].deletes && !log[m + 1].underLock
    && forall p :: 0 <= p <= n ==> log[p].version <= log[m].version
  }

  /** Each write up to n locked the row it replaced, or replaced none. */
  ghost predicate LockedThrough(log: seq<Write>, n: nat) {
    forall p :: 0 < p <= n && p < |log| ==> log[p - 1].deletes || log[p].underLock
  }

  lemma FloorOf(states: seq<State>, events: seq<Event>, j: nat, cell: Cell, v: Version)
    requires Run(states, events) && j < |states| && InvalidatedAt(events, j, cell, v)
    ensures SlotAt(states[j], cell).entry.Some? ==> SlotAt(states[j], cell).entry.value.rowVersion >= v
  {
    var i :| 0 <= i < j && i < |events| && Invalidated(events, i, j, cell, v);
    InvalidationFloor(states, events, i, j);
  }

  /**
   Visibility by invalidation with any number of engines and any clocks, from the writes and their
   invalidations alone. Once every write of a key up to n had its invalidation processed by a pool that kept
   the key, an entry there can hide write n only by showing a row that was overwritten without its lock and
   that nothing up to n outranks. Where each write locked the row it replaced, nothing is hidden. That this is
   exact, over all runs with a given history, is the subject of the Histories module.
   */
  lemma AllInvalidatedShowsTheWrite(states: seq<State>, events: seq<Event>, j: nat, cell: Cell, n: nat)
    requires Run(states, events) && j < |states| && AllInvalidated(states, events, j, cell, n)
    requires SlotAt(states[j], cell).entry.Some? && n < |Log(states[j], cell.key)|
    ensures Inv(states[j])
    ensures var f, log := Source(states[j], cell), Log(states[j], cell.key);
            && (!Reflects(f, n) ==> f.row.value.seen > 0 && OverwrittenUnlocked(log, f.row.value.seen - 1, n))
            && (!(exists m: nat :: OverwrittenUnlocked(log, m, n)) ==> Reflects(f, n))
            && (LockedThrough(log, n) ==> Reflects(f, n))
  {
    RunKeepsInv(states, events, j);
    var s, log := states[j], Log(states[j], cell.key);
    assert EntryOk(s, cell.key, s.slots[cell].entry.value);
    var f := Source(s, cell);
    assert RowOk(log, f.sampledAt, f.sampledTime, f.row.value);
    if !Reflects(f, n) {
      forall p | 0 <= p <= n ensures f.row.value.version >= log[p].version > 0 {
        FloorOf(states, events, j, cell, log[p].version);
        assert WriteOk(s, cell.key, s.log[cell.key][p]);
      }
      HiddenIsOverwritten(s, cell.key, f.row.value, n);
    }
  }

  lemma HiddenIsOverwritten(s: State, k: Key, row: Row, n: nat)
    requires Inv(s) && row.seen <= n < |Log(s, k)|
    requires Current(Log(s, k)[..row.seen]) == (if row.negative then None else Some(row.version)) && (row.negative ==> row.version == 0)
    requires forall p :: 0 <= p <= n ==> row.version >= Log(s, k)[p].version > 0
    ensures row.seen > 0 && OverwrittenUnlocked(Log(s, k), row.seen - 1, n)
    ensures !LockedThrough(Log(s, k), n)
  {
    var log := Log(s, k);
    assert log[0].version > 0;
    assert row.seen > 0 && log[..row.seen][row.seen - 1] == log[row.seen - 1];
    assert !s.log[k][row.seen].underLock;
  }

  /** The read's newest row is one committed before n and not stamped before it. */
  predicate Overtook(f: Fetch, log: seq<Write>, n: nat)
    requires n < |log|
  {
    f.row.Some? && 0 < f.row.value.seen <= n && log[f.row.value.seen - 1].stampedAt >= log[n].stampedAt
  }

  /**
   Read-own-writes under synchronous invalidation, where one clock stamps the key's writes. Once the write's
   invalidation was processed, and as long as the pool keeps the key, every entry there reflects the write,
   if and only if it does not show a write that was stamped later and committed first. A write that replaced
   an existing row, or that was stamped when every earlier write was already committed, is always reflected;
   what is left is an unlocked write, of a missing row or over budget, that another overtakes while under way.
   */
  lemma SynchronousReadOwnWrites(states: seq<State>, events: seq<Event>, i: nat, j: nat, n: nat)
    requires Run(states, events) && i < j < |states| && events[i].step.Invalidate?
    requires forall m :: i < m < j ==> events[m].step != Lose(events[i].step.cell)
    requires var cell := events[i].step.cell;
             && n < |Log(states[j], cell.key)| && Log(states[j], cell.key)[n].version <= events[i].step.version
             && SlotAt(states[j], cell).entry.Some? && OneWriterClock(states[j], cell.key)
    ensures Inv(states[j])
    ensures var f, log := Source(states[j], events[i].step.cell), Log(states[j], events[i].step.cell.key);
            && (Reflects(f, n) <==> !Overtook(f, log, n))
            && (log[n].underLock ==> Reflects(f, n))
            && ((forall m :: 0 <= m < n ==> log[m].committedAt < log[n].stampedAt) ==> Reflects(f, n))
  {
    var cell := events[i].step.cell;
    InvalidationMakesWritesVisible(states, events, i, j, n);
    var s, f, log := states[j], Source(states[j], cell), Log(states[j], cell.key);
    DominatesIffStampedLast(s, cell.key, n);
    if log[n].underLock {
      LockedIsStampedLast(s, cell.key, n);
    }
    AloneIsStampedLast(s, cell.key, n);
    if f.row.Some? && 0 < f.row.value.seen <= n {
      VersionsFollowStamps(s, cell.key, f.row.value.seen - 1, n);
    }
  }

  /** A write stamped once every earlier one was committed is stamped last. */
  lemma AloneIsStampedLast(s: State, k: Key, n: nat)
    requires Inv(s) && n < |Log(s, k)|
    ensures (forall m :: 0 <= m < n ==> Log(s, k)[m].committedAt < Log(s, k)[n].stampedAt) ==> StampedLast(Log(s, k), n)
  {
    forall m | 0 <= m < n ensures Log(s, k)[m].stampedAt < Log(s, k)[m].committedAt {
      assert WriteOk(s, k, s.log[k][m]);
    }
  }

  /**
   Version dominance with many engines. In every run, over any number of clocks and any wall readings,
   a write that replaced an existing row under its lock is stamped strictly above the version it replaced.
   */
  lemma VersionDominance(states: seq<State>, events: seq<Event>, j: nat, k: Key, n: nat)
    requires Run(states, events) && j < |states| && n < |Log(states[j], k)| && Log(states[j], k)[n].underLock
    ensures n > 0 && !Log(states[j], k)[n - 1].deletes
            && Log(states[j], k)[n].version > Log(states[j], k)[n - 1].version
  {
    RunKeepsInv(states, events, j);
    assert states[j].log[k][n].underLock;
  }

  // ---- BOUNDED(t) ----

  /** No clock is more than `skew` ahead of the reference time. */
  predicate ClocksWithin(s: State, skew: int) {
    forall c <- s.clocks :: Physical(s.clocks[c]) * NANOS_PER_MILLI <= s.time + skew
  }

  predicate SamplesWithin(s: State, skew: int) {
    forall r <- s.fetches :: Physical(s.fetches[r].fill) * NANOS_PER_MILLI <= s.fetches[r].sampledTime + skew
  }

  lemma SamplesWithinStep(s: State, e: Event, skew: int)
    requires Enabled(s, e.step) && SamplesWithin(s, skew) && ClocksWithin(Apply(s, e), skew)
    ensures SamplesWithin(Apply(s, e), skew)
  {
    var s' := Apply(s, e);
    forall r | r in s'.fetches
      ensures Physical(s'.fetches[r].fill) * NANOS_PER_MILLI <= s'.fetches[r].sampledTime + skew
    {
      if r in s.fetches {
        FetchGrows(s, e, r);
      } else {
        assert e.step.Sample? && e.step.read == r;
        assert s'.fetches[r].fill == s'.clocks[e.step.clock];
      }
    }
  }

  lemma {:induction false} RunSamplesWithin(states: seq<State>, events: seq<Event>, j: nat, skew: int)
    requires Run(states, events) && j < |states|
    requires forall m :: 0 <= m <= j ==> ClocksWithin(states[m], skew)
    ensures SamplesWithin(states[j], skew)
  {
    if j > 0 {
      RunSamplesWithin(states, events, j - 1, skew);
      assert Follows(states[j - 1], events[j - 1], states[j]);
      SamplesWithinStep(states[j - 1], events[j - 1], skew);
    }
  }

  /**
   BOUNDED(t). If no clock ever ran more than MaxClockSkew ahead of the serving engine's, an entry
   accepted at time T reflects every write of its key committed at or before T - t, whichever engine
   sampled it, despite millisecond truncation and clock drift. The one exception, exactly, is a commit at
   the very instant T - t, when the read sampled at that instant too and fetched before the commit.
   */
  lemma BoundedStaleness(states: seq<State>, events: seq<Event>, j: nat, n: nat)
    requires Run(states, events) && j < |events| && events[j].step.Hit? && events[j].step.level.Bounded?
    requires forall m :: 0 <= m <= j ==> ClocksWithin(states[m], events[j].step.skew)
    requires n < |Log(states[j], events[j].step.cell.key)|
    requires Log(states[j], events[j].step.cell.key)[n].committedTime
             <= events[j].step.now - events[j].step.level.staleness
    ensures Inv(states[j]) && SlotAt(states[j], events[j].step.cell).entry.Some?
    ensures var f, w := Source(states[j], events[j].step.cell), Log(states[j], events[j].step.cell.key)[n];
            Reflects(f, n) <==>
              !(w.committedTime == f.sampledTime == events[j].step.now - events[j].step.level.staleness
                && FetchedBefore(f, w))
    ensures var f, w := Source(states[j], events[j].step.cell), Log(states[j], events[j].step.cell.key)[n];
            f.sampledTime >= w.committedTime && (f.sampledTime > w.committedTime ==> Reflects(f, n))
  {
    var cell := events[j].step.cell;
    RunKeepsInv(states, events, j);
    RunSamplesWithin(states, events, j, events[j].step.skew);
    assert Follows(states[j], events[j], states[j + 1]);
    assert EntryOk(states[j], cell.key, states[j].slots[cell].entry.value);
    var f := Source(states[j], cell);
    assert RowOk(Log(states[j], cell.key), f.sampledAt, f.sampledTime, f.row.value);
  }

  /** A step whose wall reading is within the skew, and which does not borrow a millisecond. */
  predicate WallWithin(s: State, e: Event, skew: int) {
    match e.step
    case Sample(_, _, _, wall) => wall * NANOS_PER_MILLI <= e.time + skew
    case DoStamp(t, wall) =>
      && wall * NANOS_PER_MILLI <= e.time + skew
      && (t in s.txns && wall <= Physical(ClockOf(s, s.txns[t].clock))
          ==> Logical(ClockOf(s, s.txns[t].clock)) != MAX_LOGICAL)
    case _ => true
  }

  /** Every version in the database came from some clock, which is still at or above it. */
  lemma RowVersionsComeFromClocks(s: State, k: Key, skew: int)
    requires Inv(s) && ClocksWithin(s, skew) && s.time + skew >= 0
    ensures Physical(VersionNow(s, k)) * NANOS_PER_MILLI <= s.time + skew
  {
    if Current(Log(s, k)).Some? {
      var w := Log(s, k)[|Log(s, k)| - 1];
      assert WriteOk(s, k, s.log[k][|s.log[k]| - 1]);
      PackingOrders(w.version, ClockOf(s, s.txns[w.txn].clock));
    }
  }

  lemma ClocksWithinStep(s: State, e: Event, skew: int)
    requires Inv(s) && Enabled(s, e.step) && s.time <= e.time && ClocksWithin(s, skew) && s.time + skew >= 0
    requires WallWithin(s, e, skew)
    ensures ClocksWithin(Apply(s, e), skew)
  {
    var s' := Apply(s, e);
    forall c | c in s'.clocks ensures Physical(s'.clocks[c]) * NANOS_PER_MILLI <= s'.time + skew {
      match e.step
      case Lock(t, k) => RowVersionsComeFromClocks(s, k, skew);
      case FetchRow(r) => RowVersionsComeFromClocks(s, s.fetches[r].key, skew);
      case _ =>
    }
  }

  /** The hypothesis of BoundedStaleness, from wall clocks alone: wall skew bounds the logical clocks too. */
  lemma {:induction false} WallSkewBoundsClocks(states: seq<State>, events: seq<Event>, j: nat, skew: int)
    requires Run(states, events) && j < |states| && states[0].time + skew >= 0
    requires forall m :: 0 <= m < j ==> WallWithin(states[m], events[m], skew)
    ensures ClocksWithin(states[j], skew) && states[j].time + skew >= 0
  {
    if j > 0 {
      WallSkewBoundsClocks(states, events, j - 1, skew);
      RunKeepsInv(states, events, j - 1);
      assert Follows(states[j - 1], events[j - 1], states[j]);
      ClocksWithinStep(states[j - 1], events[j - 1], skew);
    }
  }
}
