/**
 The binlog tailer (internal/cdc/tailer.go) across crashes and restarts.

 A binlog is a sequence; a position is an index into it. Row images precede the `Synced` event of their
 transaction, whose position is just past it. The tailer's mutex makes each of the steps below atomic;
 taking the position to save and writing it to the checkpoint store are two of them.
 */
module Cdc {
  import opened Common
  import opened Hlc
  import CacheSlot

  type Key = nat
  type Slot = CacheSlot.Slot<nat>

  /** One binlog event: a row image with a usable key and version, one without, or a transaction's end. */
  datatype Event = Image(key: Key, version: Version) | Unusable | Synced

  // ---- the tailer's own state ----

  datatype Progress = Progress(position: nat, dirty: bool, frozen: bool, frozenAt: nat)

  function Frozen(p: Progress): Progress {
    if p.frozen then p else p.(frozen := true, frozenAt := p.position)
  }

  function Moved(p: Progress, position: nat): Progress { p.(position := position, dirty := true) }

  /** The last position before which everything is known to have been applied. */
  function Safe(p: Progress): nat { if p.frozen then p.frozenAt else p.position }

  const INITIAL_BACKOFF: nat := 100
  const MAX_BACKOFF: nat := 2000

  function Pow2(n: nat): nat { if n == 0 then 1 else 2 * Pow2(n - 1) }

  /** The wait after the n-th failed try: doubled each time, up to the cap. */
  function Backoff(n: nat): nat {
    if n == 0 then INITIAL_BACKOFF else Min(2 * Backoff(n - 1), MAX_BACKOFF)
  }

  lemma NextBackoff(n: nat)
    ensures Backoff(n + 1) == if 2 * Backoff(n) > MAX_BACKOFF then MAX_BACKOFF else 2 * Backoff(n)
  {
  }

  lemma {:induction false} BackoffIsExponential(n: nat)
    ensures Backoff(n) == Min(100 * Pow2(n), 2000)
  {
    if n > 0 {
      BackoffIsExponential(n - 1);
    }
  }

  /** One try at a tombstone: the cache answered, or the budget or the context ran out. */
  datatype Attempt = Answered | GaveUp | Waited

  /** The first m waits. */
  function Waits(m: nat): (w: seq<nat>)
    ensures |w| == m && forall n :: 0 <= n < m ==> w[n] == Backoff(n)
  {
    if m == 0 then [] else Waits(m - 1) + [Backoff(m - 1)]
  }

  /** The waits between tries, up to the try that settles it. */
  method Retry(attempts: seq<Attempt>) returns (waits: seq<nat>)
    requires attempts != [] && attempts[|attempts| - 1] != Waited
    ensures |waits| < |attempts| && attempts[|waits|] != Waited && waits == Waits(|waits|)
    ensures forall n :: 0 <= n < |waits| ==> attempts[n] == Waited
  {
    var backoff, attempt := INITIAL_BACKOFF, 0;
    waits := [];
    while attempts[attempt] == Waited
      invariant 0 <= attempt < |attempts| && backoff == Backoff(attempt) && waits == Waits(attempt)
      invariant forall n :: 0 <= n < attempt ==> attempts[n] == Waited
      decreases |attempts| - attempt
    {
      NextBackoff(attempt);
      waits := waits + [backoff];
      backoff := 2 * backoff;
      if backoff > MAX_BACKOFF {
        backoff := MAX_BACKOFF;
      }
      attempt := attempt + 1;
    }
  }

  class Tailer {
    var position: nat
    var dirty: bool
    var frozen: bool
    var frozenAt: nat

    function View(): Progress
      reads this
    {
      Progress(position, dirty, frozen, frozenAt)
    }

    constructor (start: nat)
      ensures View() == Progress(start, true, false, 0)
    {
      position, dirty, frozen, frozenAt := start, true, false, 0;
    }

    method Freeze()
      modifies this
      ensures View() == Frozen(old(View()))
      ensures frozen && frozenAt == (if old(frozen) then old(frozenAt) else position)
      ensures position == old(position) && dirty == old(dirty)
    {
      if frozen {
        return;
      }
      frozen := true;
      frozenAt := position;
    }

    method SetPosition(p: nat)
      modifies this
      ensures View() == Moved(old(View()), p)
      ensures position == p && dirty && frozen == old(frozen) && frozenAt == old(frozenAt)
    {
      position := p;
      dirty := true;
    }

    /** The first half of saveIfDirty: what to hand to the checkpoint store, if anything. */
    method TakeSave() returns (p: Option<nat>)
      modifies this
      ensures p == if old(dirty) then Some(Safe(old(View()))) else None
      ensures old(dirty) ==> p == Some(if frozen then frozenAt else position)
      ensures View() == old(View()).(dirty := false)
    {
      var at := position;
      if frozen {
        at := frozenAt;
      }
      p := if dirty then Some(at) else None;
      dirty := false;
    }

    /** invalidate: retry until the cache answers or the budget runs out, and then freeze. */
    method Invalidate(attempts: seq<Attempt>) returns (delivered: bool, waits: seq<nat>)
      requires attempts != [] && attempts[|attempts| - 1] != Waited
      modifies this
      ensures |waits| < |attempts| && attempts[|waits|] != Waited
      ensures forall n :: 0 <= n < |waits| ==> attempts[n] == Waited
      ensures delivered <==> attempts[|waits|] == Answered
      ensures View() == if delivered then old(View()) else Frozen(old(View()))
      ensures forall n :: 0 <= n < |waits| ==> waits[n] == Backoff(n)
    {
      waits := Retry(attempts);
      delivered := attempts[|waits|] == Answered;
      if !delivered {
        Freeze();
      }
    }
  }

  // ---- the whole system: process, checkpoint store, cache ----

  /** A running tailer: where it started, the next event canal will hand it, a save it took but has not written. */
  datatype Process = Process(progress: Progress, start: nat, cursor: nat, pending: Option<nat>)

  /**
   `base` is where the first run that saved a checkpoint started; `delivered` holds the events whose
   tombstone call the cache answered.
   */
  datatype System = System(saved: Option<nat>, base: nat, process: Option<Process>, delivered: set<nat>, slots: map<Key, Slot>)

  function SlotOf(s: System, k: Key): Slot { if k in s.slots then s.slots[k] else CacheSlot.Empty() }

  datatype Step =
    | Start(master: nat)
    | Deliver(answered: bool, reached: bool)
    | Skip
    | Sync
    | TakeSave
    | WriteSave(ok: bool)
    | Crash
    | Refill(key: Key, entry: CacheSlot.Entry<nat>)
    | Evict(key: Key)

  predicate Running(s: System) { s.process.Some? }

  predicate AtEvent(log: seq<Event>, s: System) { s.process.Some? && s.process.value.cursor < |log| }

  predicate Enabled(log: seq<Event>, s: System, step: Step) {
    match step
    case Start(master) => s.process.None? && master <= |log|
    case Deliver(_, _) => AtEvent(log, s) && log[s.process.value.cursor].Image?
    case Skip => AtEvent(log, s) && log[s.process.value.cursor].Unusable?
    case Sync => AtEvent(log, s) && log[s.process.value.cursor].Synced?
    case TakeSave => Running(s) && s.process.value.pending.None?
    case WriteSave(_) => Running(s) && s.process.value.pending.Some?
    case Crash => Running(s)
    case Refill(_, _) => true
    case Evict(_) => true
  }

  function Apply(log: seq<Event>, s: System, step: Step): System
    requires Enabled(log, s, step)
  {
    match step
    case Start(master) =>
      // The stored checkpoint, else the shard's current position.
      var at := if s.saved.Some? then s.saved.value else master;
      s.(process := Some(Process(Progress(at, true, false, 0), at, at, None)))
    case Deliver(answered, reached) =>
      var p := s.process.value;
      var e := log[p.cursor];
      s.(process := Some(p.(cursor := p.cursor + 1, progress := if answered then p.progress else Frozen(p.progress))),
         delivered := if answered then s.delivered + {p.cursor} else s.delivered,
         slots := if answered || reached then s.slots[e.key := CacheSlot.Tombstone(SlotOf(s, e.key), e.version)] else s.slots)
    case Skip =>
      var p := s.process.value;
      s.(process := Some(p.(cursor := p.cursor + 1)))
    case Sync =>
      var p := s.process.value;
      s.(process := Some(p.(cursor := p.cursor + 1, progress := Moved(p.progress, p.cursor + 1))))
    case TakeSave =>
      var p := s.process.value;
      s.(process := Some(p.(progress := p.progress.(dirty := false),
                            pending := if p.progress.dirty then Some(Safe(p.progress)) else None)))
    case WriteSave(ok) =>
      var p := s.process.value;
      s.(process := Some(p.(pending := None)),
         saved := if ok then p.pending else s.saved,
         base := if ok && s.saved.None? then p.start else s.base)
    case Crash => s.(process := None)
    case Refill(k, e) => s.(slots := s.slots[k := CacheSlot.Fill(SlotOf(s, k), e)])
    case Evict(k) => s.(slots := s.slots - {k})
  }

  const INIT: System := System(None, 0, None, {}, map[])

  ghost predicate Run(log: seq<Event>, states: seq<System>, steps: seq<Step>) {
    && |states| == |steps| + 1
    && states[0] == INIT
    && forall i :: 0 <= i < |steps| ==> Enabled(log, states[i], steps[i]) && states[i + 1] == Apply(log, states[i], steps[i])
  }

  /** Every usable row image in the stretch has been delivered. */
  predicate AllDelivered(log: seq<Event>, delivered: set<nat>, from: nat, to: nat) {
    to <= |log| && forall i :: from <= i < to && log[i].Image? ==> i in delivered
  }

  ghost predicate ProcessOk(log: seq<Event>, s: System, p: Process) {
    && p.start <= p.progress.position <= p.cursor <= |log|
    && (p.progress.frozen ==> p.start <= p.progress.frozenAt <= p.progress.position)
    && AllDelivered(log, s.delivered, p.start, if p.progress.frozen then p.progress.frozenAt else p.cursor)
    && (s.saved.Some? ==> s.base <= p.start && AllDelivered(log, s.delivered, s.base, p.start))
    && (s.saved.Some? ==> s.saved.value <= Safe(p.progress))
    && (p.pending.Some? ==> p.start <= p.pending.value <= Safe(p.progress))
    && (p.pending.Some? && s.saved.Some? ==> s.saved.value <= p.pending.value)
  }

  ghost predicate Inv(log: seq<Event>, s: System) {
    && (s.saved.Some? ==> s.base <= s.saved.value && AllDelivered(log, s.delivered, s.base, s.saved.value))
    && (s.process.Some? ==> ProcessOk(log, s, s.process.value))
    && (forall k <- s.slots :: CacheSlot.Wf(s.slots[k]))
  }

  lemma DeliverKeepsInv(log: seq<Event>, s: System, step: Step)
    requires Inv(log, s) && Enabled(log, s, step) && step.Deliver?
    ensures Inv(log, Apply(log, s, step))
  {
    var p, p' := s.process.value, Apply(log, s, step).process.value;
    assert Safe(p'.progress) == Safe(p.progress);
  }

  lemma SaveKeepsInv(log: seq<Event>, s: System, step: Step)
    requires Inv(log, s) && Enabled(log, s, step) && (step.WriteSave? || step.TakeSave?)
    ensures Inv(log, Apply(log, s, step))
  {
  }

  lemma StepKeepsInv(log: seq<Event>, s: System, step: Step)
    requires Inv(log, s) && Enabled(log, s, step)
    ensures Inv(log, Apply(log, s, step))
  {
    match step
    case Deliver(_, _) => DeliverKeepsInv(log, s, step);
    case TakeSave => SaveKeepsInv(log, s, step);
    case WriteSave(_) => SaveKeepsInv(log, s, step);
    case _ =>
  }

  lemma {:induction false} RunKeepsInv(log: seq<Event>, states: seq<System>, steps: seq<Step>, n: nat)
    requires Run(log, states, steps) && n < |states|
    ensures Inv(log, states[n])
  {
    if n > 0 {
      RunKeepsInv(log, states, steps, n - 1);
      StepKeepsInv(log, states[n - 1], steps[n - 1]);
    }
  }

  /**
   At least once. Across any sequence of crashes, restarts, failed deliveries and failed saves, every
   usable row image between where the first checkpointed run started and the saved checkpoint was
   answered by the cache: an image that never was is still ahead of the checkpoint, so the next start replays it.
   */
  lemma AtLeastOnce(log: seq<Event>, states: seq<System>, steps: seq<Step>, n: nat, i: nat)
    requires Run(log, states, steps) && n < |states| && states[n].saved.Some? && i < |log| && log[i].Image?
    ensures (exists m: nat :: m < n && AnsweredAt(states, steps, m, i)) || i < states[n].base || i >= states[n].saved.value
  {
    RunKeepsInv(log, states, steps, n);
    DeliveredIsAnswered(log, states, steps, n, i);
  }

  /** Step m is a delivery of event i that the cache answered. */
  predicate AnsweredAt(states: seq<System>, steps: seq<Step>, m: nat, i: nat) {
    && m < |steps| && m < |states| && steps[m].Deliver? && steps[m].answered
    && states[m].process.Some? && states[m].process.value.cursor == i
  }

  lemma {:induction false} DeliveredIsAnswered(log: seq<Event>, states: seq<System>, steps: seq<Step>, n: nat, i: nat)
    requires Run(log, states, steps) && n < |states|
    ensures i in states[n].delivered <==> exists m: nat :: m < n && AnsweredAt(states, steps, m, i)
  {
    if n > 0 {
      DeliveredIsAnswered(log, states, steps, n - 1, i);
      assert Enabled(log, states[n - 1], steps[n - 1]) && states[n] == Apply(log, states[n - 1], steps[n - 1]);
      assert i in states[n].delivered <==> i in states[n - 1].delivered || AnsweredAt(states, steps, n - 1, i);
    }
  }

  /** So nothing older than a checkpointed image is served for a key that was never evicted. */
  lemma CheckpointedImagesAreVisible(log: seq<Event>, states: seq<System>, steps: seq<Step>, n: nat, i: nat)
    requires Run(log, states, steps) && n < |states| && states[n].saved.Some? && i < |log| && log[i].Image?
    requires states[n].base <= i < states[n].saved.value && forall j :: 0 <= j < n ==> steps[j] != Evict(log[i].key)
    ensures var slot := SlotOf(states[n], log[i].key); slot.entry.Some? ==> slot.entry.value.rowVersion >= log[i].version
  {
    AtLeastOnce(log, states, steps, n, i);
    var m: nat :| m < n && AnsweredAt(states, steps, m, i);
    DeliveredImagesStayVisible(log, states, steps, m, n);
  }

  /** A saved checkpoint never moves backwards, within a run of the process or across restarts, and its base is fixed. */
  lemma {:induction false} CheckpointsAdvance(log: seq<Event>, states: seq<System>, steps: seq<Step>, m: nat, n: nat)
    requires Run(log, states, steps) && m <= n < |states| && states[m].saved.Some?
    ensures states[n].saved.Some? && states[n].saved.value >= states[m].saved.value && states[n].base == states[m].base
  {
    if m < n {
      CheckpointsAdvance(log, states, steps, m, n - 1);
      RunKeepsInv(log, states, steps, n - 1);
    }
  }

  /** Replay and reordering cannot undo newer state: no step but an eviction lowers what a slot knows. */
  lemma ReplayNeverLowers(log: seq<Event>, states: seq<System>, steps: seq<Step>, n: nat, k: Key)
    requires Run(log, states, steps) && n < |steps| && steps[n] != Evict(k)
    ensures CacheSlot.Level(SlotOf(states[n + 1], k)) >= CacheSlot.Level(SlotOf(states[n], k))
  {
    RunKeepsInv(log, states, steps, n);
    assert CacheSlot.Wf(SlotOf(states[n], k));
  }

  lemma {:induction false} LevelKept(log: seq<Event>, states: seq<System>, steps: seq<Step>, m: nat, n: nat, k: Key)
    requires Run(log, states, steps) && m <= n < |states| && forall j :: m <= j < n ==> steps[j] != Evict(k)
    ensures CacheSlot.Level(SlotOf(states[n], k)) >= CacheSlot.Level(SlotOf(states[m], k))
  {
    if m < n {
      LevelKept(log, states, steps, m, n - 1, k);
      ReplayNeverLowers(log, states, steps, n - 1, k);
    }
  }

  /**
   What delivery buys: once an image was delivered, nothing the cache serves for its key is older than
   it until the entry is evicted, through every later crash, replay and refill; and delivering it again
   changes nothing.
   */
  lemma DeliveredImagesStayVisible(log: seq<Event>, states: seq<System>, steps: seq<Step>, m: nat, n: nat)
    requires Run(log, states, steps) && m < n < |states| && steps[m].Deliver? && steps[m].answered
    requires var e := log[states[m].process.value.cursor]; forall j :: m < j < n ==> steps[j] != Evict(e.key)
    ensures var e := log[states[m].process.value.cursor];
            && (SlotOf(states[n], e.key).entry.Some? ==> SlotOf(states[n], e.key).entry.value.rowVersion >= e.version)
            && CacheSlot.Tombstone(SlotOf(states[n], e.key), e.version) == SlotOf(states[n], e.key)
  {
    var e := log[states[m].process.value.cursor];
    RunKeepsInv(log, states, steps, m);
    RunKeepsInv(log, states, steps, n);
    CacheSlot.TombstoneLevel(SlotOf(states[m], e.key), e.version);
    LevelKept(log, states, steps, m + 1, n, e.key);
    assert CacheSlot.Wf(SlotOf(states[n], e.key));
  }

  // ---- progress: what exactly is saved ----

  /** The end of the last transaction synced between start and m; start itself if none was. */
  function LastEnd(log: seq<Event>, start: nat, m: nat): nat
    requires m <= |log|
  {
    if m <= start then start else if log[m - 1].Synced? then m else LastEnd(log, start, m - 1)
  }

  lemma {:induction false} LastEndIsLast(log: seq<Event>, start: nat, m: nat)
    requires start <= m <= |log|
    ensures var e := LastEnd(log, start, m);
            && start <= e <= m && (e > start ==> log[e - 1].Synced?)
            && forall i :: e <= i < m ==> !log[i].Synced?
  {
    if m > start && !log[m - 1].Synced? {
      LastEndIsLast(log, start, m - 1);
    }
  }

  /** A process starts reading at the saved checkpoint, or where the shard stands if there is none. */
  lemma RestartResumes(log: seq<Event>, states: seq<System>, steps: seq<Step>, a: nat)
    requires Run(log, states, steps) && a < |steps| && steps[a].Start?
    ensures states[a + 1].process.Some? && !states[a + 1].process.value.progress.frozen
    ensures states[a + 1].process.value.start == states[a + 1].process.value.cursor == states[a].saved.UnwrapOr(steps[a].master)
    ensures states[a + 1].saved == states[a].saved && states[a + 1].delivered == states[a].delivered
  {
    assert states[a + 1] == Apply(log, states[a], steps[a]);
  }

  /** One process: started at step a, and not crashed up to state n. */
  ghost predicate Lives(steps: seq<Step>, a: nat, n: nat) {
    a < n <= |steps| && steps[a].Start? && forall i :: a < i < n ==> steps[i] != Crash
  }

  /** Where the process was when its first delivery failed, if one has by state n. */
  function FirstFailure(states: seq<System>, steps: seq<Step>, a: nat, n: nat): Option<nat>
    requires a < n <= |steps| && |steps| < |states|
    decreases n
  {
    if n == a + 1 then None
    else
      var before := FirstFailure(states, steps, a, n - 1);
      if before.None? && steps[n - 1].Deliver? && !steps[n - 1].answered && states[n - 1].process.Some?
      then Some(states[n - 1].process.value.cursor) else before
  }

  /** What the tailer's fields are, from the run alone. */
  ghost predicate Placed(log: seq<Event>, states: seq<System>, steps: seq<Step>, a: nat, n: nat)
    requires a < n <= |steps| && |steps| < |states|
  {
    && states[n].process.Some? && states[a + 1].process.Some?
    && var p, start, failed := states[n].process.value, states[a + 1].process.value.start, FirstFailure(states, steps, a, n);
       && p.start == start <= p.cursor <= |log| && p.progress.position == LastEnd(log, start, p.cursor)
       && (p.progress.frozen <==> failed.Some?)
       && (failed.Some? ==> start <= failed.value <= |log| && p.progress.frozenAt == LastEnd(log, start, failed.value))
  }

  lemma {:induction false} ProcessIsPlaced(log: seq<Event>, states: seq<System>, steps: seq<Step>, a: nat, n: nat)
    requires Run(log, states, steps) && Lives(steps, a, n)
    ensures Placed(log, states, steps, a, n)
    decreases n
  {
    RunKeepsInv(log, states, steps, n);
    if n > a + 1 {
      ProcessIsPlaced(log, states, steps, a, n - 1);
      PlacedStep(log, states, steps, a, n - 1);
    }
  }

  lemma PlacedStep(log: seq<Event>, states: seq<System>, steps: seq<Step>, a: nat, n: nat)
    requires Run(log, states, steps) && a < n < |steps| && Placed(log, states, steps, a, n) && steps[n] != Crash
    ensures Placed(log, states, steps, a, n + 1)
  {
    assert Enabled(log, states[n], steps[n]) && states[n + 1] == Apply(log, states[n], steps[n]);
  }

  /** The point a process has got through to: everything, or the first failure. */
  function Through(states: seq<System>, steps: seq<Step>, a: nat, n: nat): nat
    requires a < n <= |steps| && |steps| < |states| && states[n].process.Some?
  {
    FirstFailure(states, steps, a, n).UnwrapOr(states[n].process.value.cursor)
  }

  lemma {:induction false} PendingStays(log: seq<Event>, states: seq<System>, steps: seq<Step>, p: nat, q: nat)
    requires Run(log, states, steps) && p < q <= |steps| && steps[p] == TakeSave
    requires forall i :: p < i < q ==> steps[i] != Crash && !steps[i].WriteSave?
    ensures states[p].process.Some? && states[q].process.Some? && states[p + 1].process.Some?
    ensures states[p + 1].process.value.pending.Some? ==>
              states[q].process.value.pending == states[p + 1].process.value.pending
    decreases q
  {
    assert Enabled(log, states[p], steps[p]) && states[p + 1] == Apply(log, states[p], steps[p]);
    if q > p + 1 {
      PendingStays(log, states, steps, p, q - 1);
      assert Enabled(log, states[q - 1], steps[q - 1]) && states[q] == Apply(log, states[q - 1], steps[q - 1]);
    }
  }

  /**
   Progress. In every run, a save taken at p with something new to save, and written at q, leaves as checkpoint
   exactly the end of the last transaction the process had synced by p, or, if a delivery had failed, the last
   it had synced before the first failure.
   */
  lemma SavedIsLastSynced(log: seq<Event>, states: seq<System>, steps: seq<Step>, a: nat, p: nat, q: nat)
    requires Run(log, states, steps) && Lives(steps, a, p) && p < q < |steps|
    requires steps[p] == TakeSave && steps[q] == WriteSave(true)
    requires forall i :: p < i < q ==> steps[i] != Crash && !steps[i].WriteSave?
    ensures states[p].process.Some? && states[a + 1].process.Some? && Through(states, steps, a, p) <= |log|
    ensures states[p].process.value.progress.dirty ==>
              states[q + 1].saved == Some(LastEnd(log, states[a + 1].process.value.start, Through(states, steps, a, p)))
  {
    ProcessIsPlaced(log, states, steps, a, p);
    PendingStays(log, states, steps, p, q);
    assert Enabled(log, states[p], steps[p]) && states[p + 1] == Apply(log, states[p], steps[p]);
    assert Enabled(log, states[q], steps[q]) && states[q + 1] == Apply(log, states[q], steps[q]);
  }

  /** A sync, like a start, leaves something to save until a save is taken; the position waits where it was put. */
  lemma {:induction false} DirtyUntilTaken(log: seq<Event>, states: seq<System>, steps: seq<Step>, n: nat, p: nat)
    requires Run(log, states, steps) && n < p <= |steps| && (steps[n] == Sync || steps[n].Start?)
    requires forall i :: n < i < p ==> steps[i] != Crash && steps[i] != TakeSave
    ensures states[p].process.Some? && states[p].process.value.progress.dirty
    decreases p
  {
    assert Enabled(log, states[p - 1], steps[p - 1]) && states[p] == Apply(log, states[p - 1], steps[p - 1]);
    if p > n + 1 {
      DirtyUntilTaken(log, states, steps, n, p - 1);
    }
  }

  /** After a sync the next save, if no delivery of the process has failed, is just past that transaction. */
  lemma SyncIsSaved(log: seq<Event>, states: seq<System>, steps: seq<Step>, a: nat, n: nat, p: nat, q: nat)
    requires Run(log, states, steps) && Lives(steps, a, p) && a < n < p < q < |steps|
    requires steps[n] == Sync && steps[p] == TakeSave && steps[q] == WriteSave(true)
    requires forall i :: n < i < p ==> steps[i] != TakeSave && steps[i] != Sync
    requires forall i :: p < i < q ==> steps[i] != Crash && !steps[i].WriteSave?
    requires FirstFailure(states, steps, a, p).None?
    ensures states[n].process.Some? && states[q + 1].saved == Some(states[n].process.value.cursor + 1)
  {
    SavedIsLastSynced(log, states, steps, a, p, q);
    DirtyUntilTaken(log, states, steps, n, p);
    ProcessIsPlaced(log, states, steps, a, p);
    PositionWaits(log, states, steps, n, p);
  }

  lemma {:induction false} PositionWaits(log: seq<Event>, states: seq<System>, steps: seq<Step>, n: nat, p: nat)
    requires Run(log, states, steps) && n < p <= |steps| && steps[n] == Sync
    requires forall i :: n < i < p ==> steps[i] != Crash && steps[i] != Sync
    ensures states[n].process.Some? && states[p].process.Some?
    ensures states[p].process.value.progress.position == states[n].process.value.cursor + 1
    decreases p
  {
    assert Enabled(log, states[p - 1], steps[p - 1]) && states[p] == Apply(log, states[p - 1], steps[p - 1]);
    if p > n + 1 {
      PositionWaits(log, states, steps, n, p - 1);
    }
  }

  /**
   A failed save is not retried: taking it left nothing to save, so until the next sync the checkpoint stays what it
   was, however often a save is attempted.
   */
  lemma {:induction false} FailedSaveIsNotRetried(log: seq<Event>, states: seq<System>, steps: seq<Step>, p: nat, q: nat, n: nat)
    requires Run(log, states, steps) && p < q < n <= |steps| && steps[p] == TakeSave && steps[q] == WriteSave(false)
    requires forall i :: p < i < q ==> !steps[i].WriteSave?
    requires forall i :: p < i < n ==> steps[i] != Sync && steps[i] != Crash
    ensures states[n].process.Some? && !states[n].process.value.progress.dirty && states[n].process.value.pending.None?
    ensures states[n].saved == states[p].saved
    decreases n
  {
    assert Enabled(log, states[n - 1], steps[n - 1]) && states[n] == Apply(log, states[n - 1], steps[n - 1]);
    if q + 1 < n {
      FailedSaveIsNotRetried(log, states, steps, p, q, n - 1);
    } else {
      TakenLeavesNothing(log, states, steps, p, q);
    }
  }

  lemma {:induction false} TakenLeavesNothing(log: seq<Event>, states: seq<System>, steps: seq<Step>, p: nat, n: nat)
    requires Run(log, states, steps) && p < n <= |steps| && steps[p] == TakeSave
    requires forall i :: p < i < n ==> steps[i] != Sync && steps[i] != Crash && !steps[i].WriteSave?
    ensures states[n].process.Some? && !states[n].process.value.progress.dirty && states[n].saved == states[p].saved
    decreases n
  {
    assert Enabled(log, states[n - 1], steps[n - 1]) && states[n] == Apply(log, states[n - 1], steps[n - 1]);
    if p + 1 < n {
      TakenLeavesNothing(log, states, steps, p, n - 1);
    }
  }
}
