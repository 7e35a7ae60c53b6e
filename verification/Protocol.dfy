/**
 The consistency protocol as a step machine: clocks, the database, cache pools, in-flight reads and
 writes, and session watermarks (internal/storage/rows.go, internal/storage/update.go,
 internal/engine/rows.go, internal/engine/engine.go, internal/engine/freshness.go).

 Any number of engines share each shard, each with its own clock and its own wall time. A write is
 begin, lock and observe, stamp, commit, invalidate, acknowledge; a read is sample, fetch, land. Every
 step may interleave with every other, a fill may land late, twice or never, an invalidation may be
 delivered at any time and any number of times (the write path and the binlog tailer both deliver
 them), and an entry may be lost at any point.

 The `at` and `time` fields record the step and the reference time at which something happened; no
 step depends on them. Reference time is the wall clock of the engine whose reads are being judged.
 */
module Protocol {
  import opened Common
  import opened Hlc
  import CacheSlot

  /** A key carries the shard the ring routes it to; versions of different shards never meet. */
  datatype Key = Key(shard: nat, name: nat)

  datatype ClockId = ClockId(engine: nat, shard: nat)

  datatype Stamp = Stamp(version: Version, at: nat)

  /** A write transaction: the rows it locked, with the versions it observed there, then its stamp. */
  datatype Txn = Txn(clock: ClockId, locked: map<Key, Version>, stamp: Option<Stamp>, open: bool, wrote: set<Key>)

  /** One committed write of a key. `underLock` says it replaced a row this transaction had locked. */
  datatype Write = Write(txn: nat, version: Version, deletes: bool, underLock: bool,
                         stampedAt: nat, committedAt: nat, committedTime: int)

  /** What a read found: how many writes of the key were committed by then, and the row they left. */
  datatype Row = Row(seen: nat, version: Version, negative: bool, at: nat)

  datatype Fetch = Fetch(clock: ClockId, key: Key, fill: Version, sampledAt: nat, sampledTime: int, row: Option<Row>)

  /** The payload of an entry is the read that produced it. */
  type Entry = CacheSlot.Entry<nat>
  type Slot = CacheSlot.Slot<nat>

  datatype Cell = Cell(pool: nat, key: Key)

  datatype Session = Session(id: nat, shard: nat)

  datatype State = State(
    tick: nat,
    time: int,
    clocks: map<ClockId, Version>,
    txns: map<nat, Txn>,
    locks: map<Key, nat>,
    log: map<Key, seq<Write>>,
    fetches: map<nat, Fetch>,
    slots: map<Cell, Slot>,
    watermarks: map<Session, Version>)

  // ---- accessors ----

  function ClockOf(s: State, c: ClockId): Version { if c in s.clocks then s.clocks[c] else 0 }

  function Log(s: State, k: Key): seq<Write> { if k in s.log then s.log[k] else [] }

  function SlotAt(s: State, c: Cell): Slot { if c in s.slots then s.slots[c] else CacheSlot.Empty() }

  function Watermark(s: State, w: Session): Option<Version> {
    if w in s.watermarks then Some(s.watermarks[w]) else None
  }

  /** The row the database holds now: what the last committed write of the key left. */
  function Current(log: seq<Write>): Option<Version> {
    if log == [] || log[|log| - 1].deletes then None else Some(log[|log| - 1].version)
  }

  // ---- the freshness rule (internal/engine/freshness.go) ----

  datatype Requirement = Strong | SessionLevel | Bounded(staleness: int) | Eventual

  const NANOS_PER_MILLI: int := 1_000_000

  /** Times are nanoseconds; `skew` is MaxClockSkew. */
  predicate AcceptEntry(r: Requirement, fill: Version, watermark: Option<Version>, now: int, skew: int) {
    && !r.Strong?
    && ((r.SessionLevel? || r.Bounded?) && watermark.Some? ==> fill >= watermark.value)
    && (r.Bounded? ==> Physical(fill) * NANOS_PER_MILLI >= now - r.staleness + skew)
  }

  // ---- steps ----

  datatype Step =
    | Begin(txn: nat, clock: ClockId)
    | Lock(txn: nat, key: Key)
    | DoStamp(txn: nat, wall: int)
    | Commit(txn: nat, writes: map<Key, bool>)
    | Rollback(txn: nat)
    | Invalidate(cell: Cell, version: Version)
    | Ack(txn: nat, session: nat)
    | Sample(read: nat, clock: ClockId, key: Key, wall: int)
    | FetchRow(read: nat)
    | Return(read: nat, session: nat)
    | Land(read: nat, pool: nat)
    | Lose(cell: Cell)
    | Hit(session: nat, cell: Cell, level: Requirement, now: int, skew: int)
    | Carry(from: nat, to: nat, shard: nat)
    | Forget(session: nat, shard: nat)

  predicate Active(s: State, t: nat) { t in s.txns && s.txns[t].open }

  predicate Free(s: State, k: Key, t: nat) { k in s.locks ==> s.locks[k] == t }

  predicate Enabled(s: State, step: Step) {
    match step
    case Begin(t, c) => t !in s.txns
    case Lock(t, k) =>
      Active(s, t) && s.txns[t].stamp.None? && k.shard == s.txns[t].clock.shard && Free(s, k, t)
    case DoStamp(t, wall) =>
      Active(s, t) && s.txns[t].stamp.None? && Next(ClockOf(s, s.txns[t].clock), wall).Some?
    case Commit(t, writes) =>
      && Active(s, t) && s.txns[t].stamp.Some?
      && s.txns[t].locked.Keys <= writes.Keys
      && forall k <- writes :: k.shard == s.txns[t].clock.shard && Free(s, k, t)
    case Rollback(t) => Active(s, t)
    case Invalidate(cell, v) => true
    case Ack(t, session) => t in s.txns && s.txns[t].stamp.Some? && !s.txns[t].open && s.txns[t].wrote != {}
    case Sample(r, c, k, wall) => r !in s.fetches && k.shard == c.shard && Now(ClockOf(s, c), wall).Some?
    case FetchRow(r) => r in s.fetches && s.fetches[r].row.None?
    case Return(r, session) => r in s.fetches && s.fetches[r].row.Some?
    case Land(r, pool) => r in s.fetches && s.fetches[r].row.Some?
    case Lose(cell) => true
    case Hit(session, cell, level, now, skew) =>
      && s.time <= now
      && SlotAt(s, cell).entry.Some?
      && AcceptEntry(level, SlotAt(s, cell).entry.value.fillVersion,
                     Watermark(s, Session(session, cell.key.shard)), now, skew)
    case Carry(from, to, shard) => Session(from, shard) in s.watermarks
    case Forget(session, shard) => true
  }

  // What a step leaves in each part of the state.

  function ClocksAfter(s: State, step: Step): map<ClockId, Version>
    requires Enabled(s, step)
  {
    match step
    case Lock(t, k) =>
      // A missing row has no version to adopt; observing 0 changes nothing.
      var c := s.txns[t].clock;
      s.clocks[c := Observe(ClockOf(s, c), VersionNow(s, k))]
    case DoStamp(t, wall) =>
      var c := s.txns[t].clock;
      s.clocks[c := Next(ClockOf(s, c), wall).value]
    case Sample(r, c, k, wall) => s.clocks[c := Now(ClockOf(s, c), wall).value]
    case FetchRow(r) =>
      var c := s.fetches[r].clock;
      s.clocks[c := Observe(ClockOf(s, c), VersionNow(s, s.fetches[r].key))]
    case _ => s.clocks
  }

  function VersionNow(s: State, k: Key): Version {
    match Current(Log(s, k)) case None => 0 case Some(v) => v
  }

  /** SELECT ... FOR UPDATE locks a row that exists; a missing row locks nothing. */
  function TxnsAfter(s: State, step: Step): map<nat, Txn>
    requires Enabled(s, step)
  {
    match step
    case Begin(t, c) => s.txns[t := Txn(c, map[], None, true, {})]
    case Lock(t, k) =>
      if Current(Log(s, k)).None? then s.txns
      else s.txns[t := s.txns[t].(locked := s.txns[t].locked[k := VersionNow(s, k)])]
    case DoStamp(t, wall) =>
      s.txns[t := s.txns[t].(stamp := Some(Stamp(Next(ClockOf(s, s.txns[t].clock), wall).value, s.tick)))]
    case Commit(t, writes) => s.txns[t := s.txns[t].(open := false, wrote := writes.Keys)]
    case Rollback(t) => s.txns[t := s.txns[t].(open := false)]
    case _ => s.txns
  }

  function LocksAfter(s: State, step: Step): map<Key, nat>
    requires Enabled(s, step)
  {
    match step
    case Lock(t, k) => if Current(Log(s, k)).None? then s.locks else s.locks[k := t]
    case Commit(t, writes) => Unlocked(s, t)
    case Rollback(t) => Unlocked(s, t)
    case _ => s.locks
  }

  function Unlocked(s: State, t: nat): map<Key, nat> {
    map k | k in s.locks && s.locks[k] != t :: s.locks[k]
  }

  function Committed(s: State, t: nat, k: Key, deletes: bool, time: int): Write
    requires t in s.txns && s.txns[t].stamp.Some?
  {
    var txn := s.txns[t];
    Write(t, txn.stamp.value.version, deletes, k in txn.locked, txn.stamp.value.at, s.tick, time)
  }

  function LogAfter(s: State, step: Step, time: int): map<Key, seq<Write>>
    requires Enabled(s, step)
  {
    match step
    case Commit(t, writes) =>
      map k | k in s.log.Keys + writes.Keys ::
        if k in writes then Log(s, k) + [Committed(s, t, k, writes[k], time)] else s.log[k]
    case _ => s.log
  }

  function RowNow(s: State, k: Key): Row {
    Row(|Log(s, k)|, VersionNow(s, k), Current(Log(s, k)).None?, s.tick)
  }

  function FetchesAfter(s: State, step: Step, time: int): map<nat, Fetch>
    requires Enabled(s, step)
  {
    match step
    case Sample(r, c, k, wall) =>
      s.fetches[r := Fetch(c, k, Now(ClockOf(s, c), wall).value, s.tick, time, None)]
    case FetchRow(r) => s.fetches[r := s.fetches[r].(row := Some(RowNow(s, s.fetches[r].key)))]
    case _ => s.fetches
  }

  function EntryOf(f: Fetch, r: nat): Entry
    requires f.row.Some?
  {
    CacheSlot.Entry(f.row.value.version, f.fill, r, [])
  }

  function SlotsAfter(s: State, step: Step): map<Cell, Slot>
    requires Enabled(s, step)
  {
    match step
    case Invalidate(cell, v) => s.slots[cell := CacheSlot.Tombstone(SlotAt(s, cell), v)]
    case Land(r, pool) =>
      var cell := Cell(pool, s.fetches[r].key);
      s.slots[cell := CacheSlot.Fill(SlotAt(s, cell), EntryOf(s.fetches[r], r))]
    case Lose(cell) => s.slots - {cell}
    case _ => s.slots
  }

  /** token.Advance on one shard: the watermark only moves forward. */
  function Advance(marks: map<Session, Version>, w: Session, v: Version): map<Session, Version> {
    marks[w := if w in marks && marks[w] > v then marks[w] else v]
  }

  function WatermarksAfter(s: State, step: Step): map<Session, Version>
    requires Enabled(s, step)
  {
    match step
    case Ack(t, session) =>
      Advance(s.watermarks, Session(session, s.txns[t].clock.shard), s.txns[t].stamp.value.version)
    case Return(r, session) =>
      // An absent row has no version, so nothing advances.
      if s.fetches[r].row.value.negative then s.watermarks
      else Advance(s.watermarks, Session(session, s.fetches[r].key.shard), s.fetches[r].row.value.version)
    case Hit(session, cell, level, now, skew) =>
      Advance(s.watermarks, Session(session, cell.key.shard), SlotAt(s, cell).entry.value.rowVersion)
    case Carry(from, to, shard) => Advance(s.watermarks, Session(to, shard), s.watermarks[Session(from, shard)])
    case Forget(session, shard) => s.watermarks - {Session(session, shard)}
    case _ => s.watermarks
  }

  /** A step happens at one tick, and leaves the reference clock at `time`. */
  datatype Event = Event(step: Step, time: int)

  function Apply(s: State, e: Event): State
    requires Enabled(s, e.step)
  {
    State(s.tick + 1, e.time, ClocksAfter(s, e.step), TxnsAfter(s, e.step), LocksAfter(s, e.step),
          LogAfter(s, e.step, e.time), FetchesAfter(s, e.step, e.time), SlotsAfter(s, e.step), WatermarksAfter(s, e.step))
  }

  function Init(time: int): State {
    State(0, time, map[], map[], map[], map[], map[], map[], map[])
  }

  /** A whole run: the states it went through and the events between them. */
  ghost predicate Run(states: seq<State>, events: seq<Event>) {
    && |states| == |events| + 1
    && states[0] == Init(states[0].time)
    && forall i :: 0 <= i < |events| ==> Follows(states[i], events[i], states[i + 1])
  }

  ghost predicate Follows(s: State, e: Event, s': State) {
    Enabled(s, e.step) && s.time <= e.time && s' == Apply(s, e)
  }

  // ---- what every step keeps ----

  /** Recorded ticks and clock values belong to the past. */
  ghost predicate PastOnly(s: State) {
    && (forall t <- s.txns :: s.txns[t].stamp.Some? ==>
          && s.txns[t].stamp.value.at < s.tick
          && 0 < s.txns[t].stamp.value.version <= ClockOf(s, s.txns[t].clock))
    && (forall r <- s.fetches :: && s.fetches[r].sampledAt < s.tick
                               && s.fetches[r].fill <= ClockOf(s, s.fetches[r].clock)
                               && s.fetches[r].sampledTime <= s.time
                               && s.fetches[r].key.shard == s.fetches[r].clock.shard)
  }

  /** On one clock, a sample taken before a stamp is below it. */
  ghost predicate SamplesBelowLaterStamps(s: State) {
    forall t, r :: t in s.txns && r in s.fetches && s.txns[t].stamp.Some? && s.txns[t].clock == s.fetches[r].clock
                   && s.fetches[r].sampledAt <= s.txns[t].stamp.value.at
                   ==> s.fetches[r].fill < s.txns[t].stamp.value.version
  }

  /** And a sample taken after a stamp is not. */
  ghost predicate SamplesAboveEarlierStamps(s: State) {
    forall t, r :: t in s.txns && r in s.fetches && s.txns[t].stamp.Some? && s.txns[t].clock == s.fetches[r].clock
                   && s.fetches[r].sampledAt > s.txns[t].stamp.value.at
                   ==> s.fetches[r].fill >= s.txns[t].stamp.value.version
  }

  ghost predicate WriteOk(s: State, k: Key, w: Write) {
    && w.txn in s.txns
    && s.txns[w.txn].stamp == Some(Stamp(w.version, w.stampedAt))
    && !s.txns[w.txn].open
    && k in s.txns[w.txn].wrote
    && s.txns[w.txn].clock.shard == k.shard
    && w.stampedAt < w.committedAt < s.tick
    && w.committedTime <= s.time
  }

  ghost predicate LogOk(s: State) {
    forall k, i :: k in s.log && 0 <= i < |s.log[k]| ==> WriteOk(s, k, s.log[k][i])
  }

  /** A fetched row reflects exactly the writes committed before it was fetched. */
  ghost predicate RowOk(log: seq<Write>, sampledAt: nat, sampledTime: int, row: Row) {
    && sampledAt < row.at
    && row.seen <= |log|
    && (forall i :: 0 <= i < |log| ==> (i < row.seen <==> log[i].committedAt < row.at))
    && (forall i :: 0 <= i < |log| && row.seen <= i ==> sampledTime <= log[i].committedTime)
    && Current(log[..row.seen]) == (if row.negative then None else Some(row.version))
    && (row.negative ==> row.version == 0)
  }

  ghost predicate ReadsOk(s: State) {
    forall r <- s.fetches :: s.fetches[r].row.Some? ==>
      && s.fetches[r].row.value.at < s.tick
      && RowOk(Log(s, s.fetches[r].key), s.fetches[r].sampledAt, s.fetches[r].sampledTime, s.fetches[r].row.value)
  }

  /** Every entry in every pool is one some read produced for that key. */
  ghost predicate EntryOk(s: State, k: Key, e: Entry) {
    && e.payload in s.fetches
    && s.fetches[e.payload].key == k
    && s.fetches[e.payload].row.Some?
    && e == EntryOf(s.fetches[e.payload], e.payload)
  }

  ghost predicate SlotsOk(s: State) {
    forall c <- s.slots :: && CacheSlot.Wf(s.slots[c])
                           && (s.slots[c].entry.Some? ==> EntryOk(s, c.key, s.slots[c].entry.value))
  }

  /** A lock pins the row: until the transaction ends, the row is the one it observed, below its stamp. */
  ghost predicate LocksOk(s: State) {
    && (forall t, k :: t in s.txns && s.txns[t].open && k in s.txns[t].locked ==> Holds(s, t, k))
    && (forall k <- s.locks :: Active(s, s.locks[k]) && k in s.txns[s.locks[k]].locked)
  }

  /** Version dominance: a write that replaced a row under its lock is stamped strictly above it. */
  ghost predicate DominanceOk(s: State) {
    forall k, i :: k in s.log && 0 <= i < |s.log[k]| && s.log[k][i].underLock ==>
      && i > 0 && !s.log[k][i - 1].deletes && s.log[k][i].version > s.log[k][i - 1].version
  }

  /** On one clock, versions are in the order in which they were stamped. */
  ghost predicate StampsOrdered(s: State) {
    forall t, u :: t in s.txns && u in s.txns && s.txns[t].clock == s.txns[u].clock
                   ==> InStampOrder(s.txns[t].stamp, s.txns[u].stamp)
  }

  predicate InStampOrder(a: Option<Stamp>, b: Option<Stamp>) {
    a.Some? && b.Some? ==>
      && (a.value.at < b.value.at ==> a.value.version < b.value.version)
      && (a.value.at == b.value.at ==> a.value.version == b.value.version)
  }

  /** A write under a lock, committed or about to be, is stamped after every earlier write of its key. */
  ghost predicate LockedStampedLast(s: State) {
    && (forall t, k :: t in s.txns && s.txns[t].open && k in s.txns[t].locked && s.txns[t].stamp.Some?
                       ==> StampedBefore(Log(s, k), s.txns[t].stamp.value.at))
    && (forall k, i :: k in s.log && 0 <= i < |s.log[k]| && s.log[k][i].underLock
                       ==> StampedBefore(s.log[k][..i], s.log[k][i].stampedAt))
  }

  predicate StampedBefore(log: seq<Write>, at: nat) { forall m :: 0 <= m < |log| ==> log[m].stampedAt < at }

  ghost predicate Inv(s: State) {
    && PastOnly(s) && SamplesBelowLaterStamps(s) && LogOk(s) && ReadsOk(s) && SlotsOk(s) && LocksOk(s) && DominanceOk(s)
    && StampsOrdered(s) && LockedStampedLast(s) && SamplesAboveEarlierStamps(s)
  }

  // ---- each conjunct, step by step ----

  lemma ClocksAdvance(s: State, e: Event, c: ClockId)
    requires Enabled(s, e.step)
    ensures ClockOf(Apply(s, e), c) >= ClockOf(s, c)
  {
    match e.step
    case DoStamp(t, wall) => NextIsMax(ClockOf(s, s.txns[t].clock), wall);
    case _ =>
  }

  /** Transactions are never forgotten; a stamp is final, and so is a finished transaction. */
  lemma TxnGrows(s: State, e: Event, t: nat)
    requires Enabled(s, e.step) && t in s.txns
    ensures t in TxnsAfter(s, e.step)
    ensures var old', new' := s.txns[t], TxnsAfter(s, e.step)[t];
            && new'.clock == old'.clock
            && (old'.stamp.Some? ==> new'.stamp == old'.stamp)
            && (!old'.open ==> new' == old')
  {
  }

  lemma FetchGrows(s: State, e: Event, r: nat)
    requires Enabled(s, e.step) && r in s.fetches
    ensures r in FetchesAfter(s, e.step, e.time)
    ensures var old', new' := s.fetches[r], FetchesAfter(s, e.step, e.time)[r];
            && new' == old'.(row := new'.row)
            && (old'.row.Some? ==> new' == old')
  {
  }

  /** A key's log only gains the write a commit step appends. */
  lemma LogGrows(s: State, e: Event, k: Key)
    requires Enabled(s, e.step)
    ensures var old', new' := Log(s, k), Log(Apply(s, e), k);
            || new' == old'
            || (e.step.Commit? && k in e.step.writes
                && new' == old' + [Committed(s, e.step.txn, k, e.step.writes[k], e.time)])
  {
  }

  lemma PastOnlyStep(s: State, e: Event)
    requires PastOnly(s) && Enabled(s, e.step) && s.time <= e.time
    ensures PastOnly(Apply(s, e))
  {
    var s' := Apply(s, e);
    forall t | t in s'.txns && s'.txns[t].stamp.Some?
      ensures s'.txns[t].stamp.value.at < s'.tick
      ensures 0 < s'.txns[t].stamp.value.version <= ClockOf(s', s'.txns[t].clock)
    {
      ClocksAdvance(s, e, s'.txns[t].clock);
      if t in s.txns && s.txns[t].stamp.Some? {
        TxnGrows(s, e, t);
      } else {
        assert e.step.DoStamp? && e.step.txn == t;
        NextIsMax(ClockOf(s, s.txns[t].clock), e.step.wall);
      }
    }
    forall r | r in s'.fetches
      ensures s'.fetches[r].sampledAt < s'.tick && s'.fetches[r].sampledTime <= s'.time
      ensures s'.fetches[r].fill <= ClockOf(s', s'.fetches[r].clock)
      ensures s'.fetches[r].key.shard == s'.fetches[r].clock.shard
    {
      ClocksAdvance(s, e, s'.fetches[r].clock);
      if r in s.fetches {
        FetchGrows(s, e, r);
      } else {
        assert e.step.Sample? && e.step.read == r;
      }
    }
  }

  lemma SamplesStep(s: State, e: Event)
    requires PastOnly(s) && SamplesBelowLaterStamps(s) && Enabled(s, e.step)
    ensures SamplesBelowLaterStamps(Apply(s, e))
  {
    var s' := Apply(s, e);
    forall t, r | t in s'.txns && r in s'.fetches && s'.txns[t].stamp.Some? && s'.txns[t].clock == s'.fetches[r].clock
                  && s'.fetches[r].sampledAt <= s'.txns[t].stamp.value.at
      ensures s'.fetches[r].fill < s'.txns[t].stamp.value.version
    {
      if t in s.txns && s.txns[t].stamp.Some? {
        TxnGrows(s, e, t);
        if r in s.fetches {
          FetchGrows(s, e, r);
        }
      } else {
        assert e.step.DoStamp? && e.step.txn == t;
        assert r in s.fetches && s'.fetches[r] == s.fetches[r];
        NextIsMax(ClockOf(s, s.txns[t].clock), e.step.wall);
      }
    }
  }

  lemma LaterSamplesStep(s: State, e: Event)
    requires PastOnly(s) && SamplesAboveEarlierStamps(s) && Enabled(s, e.step)
    ensures SamplesAboveEarlierStamps(Apply(s, e))
  {
    var s' := Apply(s, e);
    forall t, r | t in s'.txns && r in s'.fetches && s'.txns[t].stamp.Some? && s'.txns[t].clock == s'.fetches[r].clock
                  && s'.fetches[r].sampledAt > s'.txns[t].stamp.value.at
      ensures s'.fetches[r].fill >= s'.txns[t].stamp.value.version
    {
      if r in s.fetches {
        FetchGrows(s, e, r);
        assert s'.fetches[r].sampledAt < s.tick;
        if t in s.txns {
          TxnGrows(s, e, t);
        }
      } else {
        assert e.step.Sample? && e.step.read == r && s'.txns == s.txns;
        NowIsMax(ClockOf(s, e.step.clock), e.step.wall);
      }
    }
  }

  lemma LogStep(s: State, e: Event)
    requires PastOnly(s) && LogOk(s) && Enabled(s, e.step) && s.time <= e.time
    ensures LogOk(Apply(s, e))
  {
    var s' := Apply(s, e);
    forall k, i | k in s'.log && 0 <= i < |s'.log[k]|
      ensures WriteOk(s', k, s'.log[k][i])
    {
      if k in s.log && i < |s.log[k]| {
        assert s'.log[k][i] == s.log[k][i];
        assert WriteOk(s, k, s.log[k][i]);
      }
    }
  }

  /** Writes committed after a row was fetched do not change what it reflects. */
  lemma RowOkGrows(s: State, e: Event, k: Key, sampledAt: nat, sampledTime: int, row: Row)
    requires Enabled(s, e.step) && RowOk(Log(s, k), sampledAt, sampledTime, row)
    requires row.at < s.tick && sampledTime <= s.time <= e.time
    ensures RowOk(Log(Apply(s, e), k), sampledAt, sampledTime, row)
  {
    LogGrows(s, e, k);
    var old', new' := Log(s, k), Log(Apply(s, e), k);
    assert new'[..row.seen] == old'[..row.seen];
  }

  lemma RowNowOk(s: State, k: Key, sampledAt: nat, sampledTime: int)
    requires LogOk(s) && sampledAt < s.tick
    ensures RowOk(Log(s, k), sampledAt, sampledTime, RowNow(s, k))
  {
    assert Log(s, k)[..|Log(s, k)|] == Log(s, k);
    forall i | 0 <= i < |Log(s, k)| ensures Log(s, k)[i].committedAt < s.tick {
      assert WriteOk(s, k, s.log[k][i]);
    }
  }

  lemma ReadsStep(s: State, e: Event)
    requires PastOnly(s) && LogOk(s) && ReadsOk(s) && Enabled(s, e.step) && s.time <= e.time
    ensures ReadsOk(Apply(s, e))
  {
    var s' := Apply(s, e);
    forall r | r in s'.fetches && s'.fetches[r].row.Some?
      ensures s'.fetches[r].row.value.at < s'.tick
      ensures RowOk(Log(s', s'.fetches[r].key), s'.fetches[r].sampledAt, s'.fetches[r].sampledTime, s'.fetches[r].row.value)
    {
      var f := s'.fetches[r];
      if r in s.fetches && s.fetches[r].row.Some? {
        FetchGrows(s, e, r);
        RowOkGrows(s, e, f.key, f.sampledAt, f.sampledTime, f.row.value);
      } else {
        assert e.step == FetchRow(r);
        RowNowOk(s, f.key, f.sampledAt, f.sampledTime);
        assert Log(s', f.key) == Log(s, f.key);
      }
    }
  }

  lemma SlotsStep(s: State, e: Event)
    requires SlotsOk(s) && Enabled(s, e.step)
    ensures SlotsOk(Apply(s, e))
  {
    var s' := Apply(s, e);
    forall c | c in s'.slots
      ensures CacheSlot.Wf(s'.slots[c])
      ensures s'.slots[c].entry.Some? ==> EntryOk(s', c.key, s'.slots[c].entry.value)
    {
      assert CacheSlot.Wf(SlotAt(s, c));
    }
  }

  ghost predicate Holds(s: State, t: nat, k: Key)
    requires t in s.txns && k in s.txns[t].locked
  {
    && k in s.locks && s.locks[k] == t
    && Current(Log(s, k)) == Some(s.txns[t].locked[k])
    && s.txns[t].locked[k] <= ClockOf(s, s.txns[t].clock)
    && (s.txns[t].stamp.Some? ==> s.txns[t].locked[k] < s.txns[t].stamp.value.version)
  }

  /** The steps that touch transactions, locks or rows. */
  predicate Writes(step: Step) {
    step.Begin? || step.Lock? || step.DoStamp? || step.Commit? || step.Rollback?
  }

  lemma OthersLeaveRows(s: State, step: Step, time: int)
    requires Enabled(s, step) && !Writes(step)
    ensures TxnsAfter(s, step) == s.txns && LocksAfter(s, step) == s.locks && LogAfter(s, step, time) == s.log
  {
  }

  lemma HoldsStep(s: State, e: Event, t: nat, k: Key)
    requires LocksOk(s) && Enabled(s, e.step)
    requires var txns := TxnsAfter(s, e.step); t in txns && txns[t].open && k in txns[t].locked
    ensures Holds(Apply(s, e), t, k)
  {
    if !Writes(e.step) {
      HoldsElsewhere(s, e, t, k);
    } else if e.step == Lock(t, k) {
      HoldsLocked(s, e);
    } else {
      ClocksAdvance(s, e, TxnsAfter(s, e.step)[t].clock);
      OpenBefore(s, e, t, k);
      assert Holds(s, t, k);
      HoldsThrough(s, e, t, k);
    }
  }

  lemma HoldsElsewhere(s: State, e: Event, t: nat, k: Key)
    requires LocksOk(s) && Enabled(s, e.step) && !Writes(e.step)
    requires var txns := TxnsAfter(s, e.step); t in txns && txns[t].open && k in txns[t].locked
    ensures Holds(Apply(s, e), t, k)
  {
    ClocksAdvance(s, e, TxnsAfter(s, e.step)[t].clock);
    OthersLeaveRows(s, e.step, e.time);
    HoldsAlone(s, Apply(s, e), t, k);
  }

  lemma HoldsAlone(s: State, s': State, t: nat, k: Key)
    requires LocksOk(s) && s'.txns == s.txns && s'.locks == s.locks && s'.log == s.log
    requires t in s.txns && s.txns[t].open && k in s.txns[t].locked
    requires ClockOf(s', s.txns[t].clock) >= ClockOf(s, s.txns[t].clock)
    ensures Holds(s', t, k)
  {
    assert Holds(s, t, k);
  }

  lemma HoldsLocked(s: State, e: Event)
    requires e.step.Lock? && Enabled(s, e.step)
    requires var txns := TxnsAfter(s, e.step); e.step.key in txns[e.step.txn].locked
    requires LocksOk(s)
    ensures Holds(Apply(s, e), e.step.txn, e.step.key)
  {
    assert e.step.key in s.txns[e.step.txn].locked ==> Holds(s, e.step.txn, e.step.key);
  }

  /** Only its own lock step adds a row to an open transaction. */
  lemma OpenBefore(s: State, e: Event, t: nat, k: Key)
    requires Enabled(s, e.step) && Writes(e.step) && e.step != Lock(t, k)
    requires var txns := TxnsAfter(s, e.step); t in txns && txns[t].open && k in txns[t].locked
    ensures t in s.txns && s.txns[t].open && k in s.txns[t].locked
  {
    match e.step
    case Begin(_, _) =>
    case Lock(_, _) =>
    case DoStamp(_, _) =>
    case Commit(_, _) =>
    case Rollback(_) =>
  }

  lemma HoldsThrough(s: State, e: Event, t: nat, k: Key)
    requires Enabled(s, e.step) && Writes(e.step) && e.step != Lock(t, k)
    requires t in s.txns && s.txns[t].open && k in s.txns[t].locked && Holds(s, t, k)
    requires TxnsAfter(s, e.step)[t].open
    requires ClockOf(Apply(s, e), s.txns[t].clock) >= ClockOf(s, s.txns[t].clock)
    ensures k in Apply(s, e).txns[t].locked && Holds(Apply(s, e), t, k)
  {
    match e.step
    case Begin(_, _) =>
    case Lock(_, _) =>
    case DoStamp(t', wall) => HoldsThroughStamp(s, e, t, k);
    case Commit(t', writes) => HoldsThroughCommit(s, e, t, k);
    case Rollback(_) =>
  }

  lemma HoldsThroughStamp(s: State, e: Event, t: nat, k: Key)
    requires e.step.DoStamp? && Enabled(s, e.step)
    requires t in s.txns && k in s.txns[t].locked && Holds(s, t, k)
    ensures k in Apply(s, e).txns[t].locked && Holds(Apply(s, e), t, k)
  {
    NextIsMax(ClockOf(s, s.txns[e.step.txn].clock), e.step.wall);
  }

  lemma HoldsThroughCommit(s: State, e: Event, t: nat, k: Key)
    requires e.step.Commit? && Enabled(s, e.step) && e.step.txn != t
    requires t in s.txns && k in s.txns[t].locked && Holds(s, t, k)
    ensures k in Apply(s, e).txns[t].locked && Holds(Apply(s, e), t, k)
  {
    assert k !in e.step.writes;
  }

  lemma LockHeldStep(s: State, e: Event, k: Key)
    requires LocksOk(s) && Enabled(s, e.step) && k in Apply(s, e).locks
    ensures var s' := Apply(s, e); Active(s', s'.locks[k]) && k in s'.txns[s'.locks[k]].locked
  {
    if !Writes(e.step) {
      OthersLeaveRows(s, e.step, e.time);
    } else if k in s.locks {
      assert Active(s, s.locks[k]) && k in s.txns[s.locks[k]].locked;
      LockHeldThrough(s, e, k);
    }
  }

  lemma LockHeldThrough(s: State, e: Event, k: Key)
    requires Enabled(s, e.step) && Writes(e.step)
    requires k in s.locks && Active(s, s.locks[k]) && k in s.txns[s.locks[k]].locked && k in Apply(s, e).locks
    ensures var s' := Apply(s, e); Active(s', s'.locks[k]) && k in s'.txns[s'.locks[k]].locked
  {
    match e.step
    case Begin(_, _) =>
    case Lock(_, _) =>
    case DoStamp(_, _) =>
    case Commit(_, _) =>
    case Rollback(_) =>
  }

  lemma LocksStep(s: State, e: Event)
    requires LocksOk(s) && Enabled(s, e.step)
    ensures LocksOk(Apply(s, e))
  {
    var s' := Apply(s, e);
    forall t, k | t in s'.txns && s'.txns[t].open && k in s'.txns[t].locked ensures Holds(s', t, k) {
      HoldsStep(s, e, t, k);
    }
    forall k | k in s'.locks ensures Active(s', s'.locks[k]) && k in s'.txns[s'.locks[k]].locked {
      LockHeldStep(s, e, k);
    }
  }

  lemma DominanceStep(s: State, e: Event)
    requires LocksOk(s) && DominanceOk(s) && Enabled(s, e.step)
    ensures DominanceOk(Apply(s, e))
  {
    var s' := Apply(s, e);
    forall k, i | k in s'.log && 0 <= i < |s'.log[k]| && s'.log[k][i].underLock
      ensures i > 0 && !s'.log[k][i - 1].deletes && s'.log[k][i].version > s'.log[k][i - 1].version
    {
      LogGrows(s, e, k);
      if i < |Log(s, k)| {
        assert s'.log[k][i] == s.log[k][i] && (i > 0 ==> s'.log[k][i - 1] == s.log[k][i - 1]);
      } else {
        NewWriteDominates(s, e, k);
        assert s'.log[k][..i] == Log(s, k);
        assert i > 0 ==> s'.log[k][i - 1] == Log(s, k)[i - 1];
      }
    }
  }

  /** The write a commit appends under a lock replaces the row the lock pins, above its version. */
  lemma NewWriteDominates(s: State, e: Event, k: Key)
    requires LocksOk(s) && Enabled(s, e.step) && e.step.Commit? && k in e.step.writes && k in s.txns[e.step.txn].locked
    ensures var log, w := Log(s, k), Committed(s, e.step.txn, k, e.step.writes[k], e.time);
            log != [] && !log[|log| - 1].deletes && w.version > log[|log| - 1].version
  {
    assert Holds(s, e.step.txn, k);
  }

  lemma StampsStep(s: State, e: Event)
    requires PastOnly(s) && StampsOrdered(s) && Enabled(s, e.step)
    ensures StampsOrdered(Apply(s, e))
  {
    var s' := Apply(s, e);
    forall t, u | t in s'.txns && u in s'.txns && s'.txns[t].clock == s'.txns[u].clock
      ensures InStampOrder(s'.txns[t].stamp, s'.txns[u].stamp)
    {
      if e.step.DoStamp? {
        NextIsMax(ClockOf(s, s.txns[e.step.txn].clock), e.step.wall);
      } else {
        StampStands(s, e, t);
        StampStands(s, e, u);
      }
    }
  }

  /** Only its own stamp step gives a transaction a stamp. */
  lemma StampStands(s: State, e: Event, t: nat)
    requires Enabled(s, e.step) && !e.step.DoStamp? && t in TxnsAfter(s, e.step)
    ensures TxnsAfter(s, e.step)[t].stamp.Some? ==>
              t in s.txns && TxnsAfter(s, e.step)[t].stamp == s.txns[t].stamp && TxnsAfter(s, e.step)[t].clock == s.txns[t].clock
  {
  }

  /** While a transaction holds a lock nobody else writes the key, so its stamp stays the latest. */
  lemma LockedStampStays(s: State, e: Event, t: nat, k: Key)
    requires LogOk(s) && LocksOk(s) && LockedStampedLast(s) && Enabled(s, e.step)
    requires var txns := TxnsAfter(s, e.step);
             t in txns && txns[t].open && k in txns[t].locked && txns[t].stamp.Some?
    ensures StampedBefore(Log(Apply(s, e), k), TxnsAfter(s, e.step)[t].stamp.value.at)
  {
    LogGrows(s, e, k);
    if e.step.DoStamp? && e.step.txn == t {
      forall m | 0 <= m < |Log(s, k)| ensures Log(s, k)[m].stampedAt < s.tick {
        assert WriteOk(s, k, s.log[k][m]);
      }
    } else {
      LockedBefore(s, e, t, k);
      assert Holds(s, t, k);
    }
  }

  lemma LockedBefore(s: State, e: Event, t: nat, k: Key)
    requires Enabled(s, e.step) && !(e.step.DoStamp? && e.step.txn == t)
    requires var txns := TxnsAfter(s, e.step);
             t in txns && txns[t].open && k in txns[t].locked && txns[t].stamp.Some?
    ensures t in s.txns && s.txns[t].open && k in s.txns[t].locked && s.txns[t].stamp == TxnsAfter(s, e.step)[t].stamp
    ensures !(e.step.Commit? && e.step.txn == t)
  {
  }

  lemma LockedLastStep(s: State, e: Event)
    requires LogOk(s) && LocksOk(s) && LockedStampedLast(s) && Enabled(s, e.step)
    ensures LockedStampedLast(Apply(s, e))
  {
    var s' := Apply(s, e);
    forall t, k | t in s'.txns && s'.txns[t].open && k in s'.txns[t].locked && s'.txns[t].stamp.Some?
      ensures StampedBefore(Log(s', k), s'.txns[t].stamp.value.at)
    {
      LockedStampStays(s, e, t, k);
    }
    forall k, i | k in s'.log && 0 <= i < |s'.log[k]| && s'.log[k][i].underLock
      ensures StampedBefore(s'.log[k][..i], s'.log[k][i].stampedAt)
    {
      LogGrows(s, e, k);
      if i < |Log(s, k)| {
        assert s'.log[k][i] == s.log[k][i] && s'.log[k][..i] == s.log[k][..i];
      } else {
        assert s'.log[k][..i] == Log(s, k) && k in s.txns[e.step.txn].locked;
      }
    }
  }

  lemma StepKeepsInv(s: State, e: Event, s': State)
    requires Inv(s) && Follows(s, e, s')
    ensures Inv(s')
  {
    PastOnlyStep(s, e);
    SamplesStep(s, e);
    LogStep(s, e);
    ReadsStep(s, e);
    SlotsStep(s, e);
    LocksStep(s, e);
    DominanceStep(s, e);
    StampsStep(s, e);
    LockedLastStep(s, e);
    LaterSamplesStep(s, e);
  }

  lemma {:induction false} RunKeepsInv(states: seq<State>, events: seq<Event>, n: nat)
    requires Run(states, events) && n < |states|
    ensures Inv(states[n])
  {
    if n > 0 {
      RunKeepsInv(states, events, n - 1);
      assert Follows(states[n - 1], events[n - 1], states[n]);
      StepKeepsInv(states[n - 1], events[n - 1], states[n]);
    }
  }
}
