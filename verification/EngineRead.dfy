/**
 The engine's read path up to the origin (internal/engine/engine.go): waiting for another caller's fill, the
 standby pool, and the freshness rule on whatever either returns.

 What the pools answer, when the caller gives up, and the clock are parameters.
 */
module EngineRead {
  import opened Common
  import opened Hlc
  import opened Protocol
  import opened Guarantees

  datatype Entry = Entry(fillVersion: Version, rowVersion: Version)

  /** One GetOrLease: an error, a shed request, a hit, a lease, or somebody else's lease. */
  datatype Answer = Failed | Shed | Hit(entry: Entry) | Granted(token: string) | Wait

  datatype Reading = Found(entry: Entry) | Leased(token: string) | Missed | Unavailable

  /** How an answer that is not Wait ends the loop. */
  function Ends(a: Answer): Reading
    requires !a.Wait?
  {
    match a
    case Failed => Unavailable
    case Shed => Unavailable
    case Hit(e) => Found(e)
    case Granted(token) => Leased(token)
  }

  /** Attempt k is reached: every earlier answer said wait, and the caller was still there after each. */
  ghost predicate Reached(answers: nat -> Answer, gone: nat -> bool, k: nat) {
    forall j: nat :: j < k ==> answers(j).Wait? && !gone(j)
  }

  /**
   readWaitingForAnyFill. The node is asked at most maxAttempts + 1 times, and the first answer that is not
   wait decides; a caller that waited in vain, or left, has a plain miss and no lease.
   */
  method ReadWaitingForAnyFill(answers: nat -> Answer, gone: nat -> bool, maxAttempts: nat)
      returns (r: Reading, asked: nat)
    ensures 1 <= asked <= maxAttempts + 1 && Reached(answers, gone, asked - 1)
    ensures forall e :: r == Found(e) <==> answers(asked - 1) == Answer.Hit(e)
    ensures forall t :: r == Leased(t) <==> answers(asked - 1) == Granted(t)
    ensures r.Unavailable? <==> answers(asked - 1).Failed? || answers(asked - 1).Shed?
    ensures answers(asked - 1).Wait? ==> r == Missed && (asked == maxAttempts + 1 || gone(asked - 1))
  {
    var attempt := 0;
    while true
      invariant attempt <= maxAttempts && Reached(answers, gone, attempt)
      decreases maxAttempts - attempt
    {
      var a := answers(attempt);
      if !a.Wait? {
        return Ends(a), attempt + 1;
      }
      if attempt >= maxAttempts {
        return Missed, attempt + 1;
      }
      if gone(attempt) {
        return Missed, attempt + 1;
      }
      attempt := attempt + 1;
    }
  }

  /** Everything a read consults: gutter is None where no standby pool exists, and then Some(None) for its miss or error. */
  datatype Context = Context(level: Requirement, watermark: Option<Version>, now: int, skew: int,
                             hasCache: bool, admitted: bool, gutter: Option<Option<Entry>>, refill: Answer)

  datatype Outcome = Outcome(served: Option<Entry>, lease: string, gutterPath: bool)

  predicate Accepts(c: Context, e: Entry) {
    AcceptEntry(c.level, e.fillVersion, c.watermark, c.now, c.skew)
  }

  function LeaseForRefill(a: Answer): string { if a.Granted? then a.token else "" }

  /** fromCacheOrLease, after the home node's reading. */
  function FromCacheOrLease(c: Context, home: Reading): Outcome {
    if !c.hasCache || c.level.Strong? || !c.admitted then Outcome(None, "", false)
    else
      var gutterPath := home.Unavailable? && c.gutter.Some?;
      var lease := if home.Leased? then home.token else "";
      if home.Found? then
        if Accepts(c, home.entry) then Outcome(Some(home.entry), "", false)
        else Outcome(None, LeaseForRefill(c.refill), false)
      else if gutterPath && c.gutter.value.Some? then
        if Accepts(c, c.gutter.value.value) then Outcome(Some(c.gutter.value.value), "", true)
        else Outcome(None, "", true)
      else Outcome(None, lease, gutterPath)
  }

  /**
   Whatever the node, the standby pool and the caller do: an entry is served only if it is one a pool returned
   and the freshness rule accepts it, never to a STRONG read; a lease is held only when the home node granted
   it and nothing is served, and then always; and the standby pool serves only while the home node is not
   answering.
   */
  lemma ServedIsFresh(c: Context, home: Reading)
    ensures var o := FromCacheOrLease(c, home);
            && (o.served.Some? ==>
                  && !c.level.Strong? && Accepts(c, o.served.value) && o.lease == ""
                  && (home == Found(o.served.value) || (home.Unavailable? && c.gutter == Some(o.served))))
            && (o.lease != "" ==> home == Leased(o.lease) || (home.Found? && c.refill == Granted(o.lease)))
            && (o.served.None? && UsesCache(c) ==>
                  && (home.Leased? ==> o.lease == home.token)
                  && (home.Found? && c.refill.Granted? ==> o.lease == c.refill.token))
            && (o.gutterPath ==> home.Unavailable? && c.gutter.Some?)
            && (home.Unavailable? && c.gutter.Some? && c.hasCache && c.admitted && !c.level.Strong? ==> o.gutterPath)
  {
  }

  /** The read consults the cache at all. */
  predicate UsesCache(c: Context) { c.hasCache && c.admitted && !c.level.Strong? }

  /** The entry a pool returned for this read: the home node's, or the standby's while that one is not answering. */
  predicate Returned(c: Context, home: Reading, e: Entry) {
    home == Found(e) || (home.Unavailable? && c.gutter == Some(Some(e)))
  }

  /**
   What each level serves, from the numbers: EVENTUAL every entry a pool returned; SESSION those filled at or above
   the watermark, so every one where there is none; BOUNDED(t) those that are also recent enough, skew included.
   */
  lemma ServedByLevel(c: Context, home: Reading, e: Entry)
    requires c.hasCache && c.admitted && Returned(c, home, e)
    ensures c.level == Eventual ==> FromCacheOrLease(c, home).served == Some(e)
    ensures c.level == SessionLevel && c.watermark.None? ==> FromCacheOrLease(c, home).served == Some(e)
    ensures c.level == SessionLevel && c.watermark.Some? ==>
              FromCacheOrLease(c, home).served == if e.fillVersion >= c.watermark.value then Some(e) else None
    ensures c.level.Bounded? ==>
              (FromCacheOrLease(c, home).served == Some(e) <==>
                 && (c.watermark.Some? ==> e.fillVersion >= c.watermark.value)
                 && e.fillVersion / LOGICALS * 1_000_000 >= c.now - c.level.staleness + c.skew)
    ensures c.level == Strong ==> FromCacheOrLease(c, home).served == None
  {
  }

  /** The levels are nested: what BOUNDED serves SESSION serves, and what SESSION serves EVENTUAL serves. */
  lemma LevelsAreNested(c: Context, home: Reading, t: int)
    ensures FromCacheOrLease(c.(level := Bounded(t)), home).served.Some? ==>
              FromCacheOrLease(c.(level := SessionLevel), home).served == FromCacheOrLease(c.(level := Bounded(t)), home).served
    ensures FromCacheOrLease(c.(level := SessionLevel), home).served.Some? ==>
              FromCacheOrLease(c.(level := Eventual), home).served == FromCacheOrLease(c.(level := SessionLevel), home).served
  {
  }

  /** A fresher entry is never refused where an older one is served, nor a longer window where a shorter one serves. */
  lemma FresherIsServed(c: Context, e: Entry, fresher: Entry, longer: int)
    requires FromCacheOrLease(c, Found(e)).served == Some(e) && fresher.fillVersion >= e.fillVersion
    ensures FromCacheOrLease(c, Found(fresher)).served == Some(fresher)
    ensures c.level.Bounded? && longer >= c.level.staleness ==>
              FromCacheOrLease(c.(level := Bounded(longer)), Found(e)).served == Some(e)
  {
    PackingOrders(e.fillVersion, fresher.fillVersion);
  }

  // ---- the read path inside the protocol ----

  /** What a pool answered is what it holds: an entry's versions, or nothing. */
  ghost predicate Holds(s: State, cell: Cell, e: Entry) {
    && SlotAt(s, cell).entry.Some?
    && e == Entry(SlotAt(s, cell).entry.value.fillVersion, SlotAt(s, cell).entry.value.rowVersion)
  }

  /**
   The context of a session's read of k: what the pools answered at one state of the run, judged at a later one by
   the watermark and the clock of then.
   */
  ghost predicate Reads(pool: State, judge: State, session: nat, k: Key, home: nat, gutter: nat, c: Context, answer: Reading) {
    && judge.time <= c.now && c.watermark == Watermark(judge, Session(session, k.shard))
    && (answer.Found? ==> Holds(pool, Cell(home, k), answer.entry))
    && (c.gutter.Some? && c.gutter.value.Some? ==> Holds(pool, Cell(gutter, k), c.gutter.value.value))
  }

  /** The pool whose entry is judged: the home node's if it answered, else the standby's. */
  function Judged(k: Key, home: nat, gutter: nat, answer: Reading): Cell {
    Cell(if answer.Found? then home else gutter, k)
  }

  predicate HasEntry(c: Context, answer: Reading) {
    answer.Found? || (answer.Unavailable? && c.gutter.Some? && c.gutter.value.Some?)
  }

  function HitStep(session: nat, k: Key, home: nat, gutter: nat, c: Context, answer: Reading): Step {
    Step.Hit(session, Judged(k, home, gutter, answer), c.level, c.now, c.skew)
  }

  /**
   The read path serves exactly the protocol's hits. Where an entry was found and nothing came between finding
   and judging it, it is served if and only if the cache is on, the key admitted, and the protocol allows that
   hit; and it is the entry the pool holds.
   */
  lemma ServesExactlyTheHits(s: State, session: nat, k: Key, home: nat, gutter: nat, c: Context, answer: Reading)
    requires Reads(s, s, session, k, home, gutter, c, answer)
    ensures FromCacheOrLease(c, answer).served.Some? <==>
              c.hasCache && c.admitted && HasEntry(c, answer) && Enabled(s, HitStep(session, k, home, gutter, c, answer))
    ensures FromCacheOrLease(c, answer).served.Some? ==>
              Holds(s, Judged(k, home, gutter, answer), FromCacheOrLease(c, answer).served.value)
  {
  }

  /** The read behind the entry that was judged. */
  function Behind(s: State, cell: Cell): nat
    requires SlotAt(s, cell).entry.Some?
  {
    SlotAt(s, cell).entry.value.payload
  }

  /**
   Read-own-writes, of the read path itself. The engine asks a pool, home node or standby, at some state q of the
   run, and judges the answer at the end of the run, other steps coming in between. Whatever it then serves a
   session at SESSION or BOUNDED reflects every write of the key acknowledged to the session by then, even one
   acknowledged after the pool was asked, under the condition and with the one exception of ReadOwnWrites.
   */
  lemma ServedReflectsOwnWrites(states: seq<State>, events: seq<Event>, i: nat, q: nat, n: nat, k: Key,
                                home: nat, gutter: nat, c: Context, answer: Reading)
    requires Run(states, events) && i < |events| && events[i].step.Ack? && q < |states|
    requires ChecksWatermark(c.level) && OneClockPerShard(Last(states))
    requires n < |Log(Last(states), k)| && Log(Last(states), k)[n].txn == events[i].step.txn
    requires forall m :: i < m < |events| ==> events[m].step != Forget(events[i].step.session, k.shard)
    requires Reads(states[q], Last(states), events[i].step.session, k, home, gutter, c, answer)
    requires FromCacheOrLease(c, answer).served.Some?
    ensures SlotAt(states[q], Judged(k, home, gutter, answer)).entry.Some?
    ensures var r := Behind(states[q], Judged(k, home, gutter, answer));
            && r in Last(states).fetches && Last(states).fetches[r].row.Some?
            && var f, w := Last(states).fetches[r], Log(Last(states), k)[n];
               (Reflects(f, n) <==> !ReadInWindow(f, w)) && AfterStamp(f, w, n)
  {
    var last, cell := |events|, Judged(k, home, gutter, answer);
    AckedBelowWatermark(states, events, i, n, k);
    ServedAboveWatermark(states[q], Last(states), events[i].step.session, k, home, gutter, c, answer);
    RunKeepsInv(states, events, q);
    RunKeepsInv(states, events, last);
    assert EntryOk(states[q], k, states[q].slots[cell].entry.value);
    var r := Behind(states[q], cell);
    FetchKept(states, events, q, last, r);
    var s := states[last];
    assert WriteOk(s, k, s.log[k][n]);
    FillVersionProvesFreshness(s, r, n);
  }

  lemma ServedAboveWatermark(pool: State, judge: State, session: nat, k: Key, home: nat, gutter: nat, c: Context, answer: Reading)
    requires Reads(pool, judge, session, k, home, gutter, c, answer) && ChecksWatermark(c.level)
    requires FromCacheOrLease(c, answer).served.Some? && Session(session, k.shard) in judge.watermarks
    ensures var cell := Judged(k, home, gutter, answer);
            && SlotAt(pool, cell).entry.Some?
            && SlotAt(pool, cell).entry.value.fillVersion >= judge.watermarks[Session(session, k.shard)]
  {
  }

  /** A session's watermark covers every write acknowledged to it. */
  lemma AckedBelowWatermark(states: seq<State>, events: seq<Event>, i: nat, n: nat, k: Key)
    requires Run(states, events) && i < |events| && events[i].step.Ack?
    requires n < |Log(Last(states), k)| && Log(Last(states), k)[n].txn == events[i].step.txn
    requires forall m :: i < m < |events| ==> events[m].step != Forget(events[i].step.session, k.shard)
    ensures var w := Session(events[i].step.session, k.shard);
            w in Last(states).watermarks && Last(states).watermarks[w] >= Log(Last(states), k)[n].version
  {
    var last, t := |events|, events[i].step.txn;
    RunKeepsInv(states, events, last);
    assert Follows(states[i], events[i], states[i + 1]);
    TxnKept(states, events, i, last, t);
    assert WriteOk(states[last], k, states[last].log[k][n]);
    WatermarkKept(states, events, i + 1, last, Session(events[i].step.session, k.shard));
  }
}
