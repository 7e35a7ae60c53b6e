/**
 The admission policy and controller (internal/admission/policy.go, internal/admission/controller.go).

 Times are nanoseconds, with 0 for the zero time; ratios are real numbers. A call's sketch counts and clock
 reading are its sample. The controller is compared with the log of its samples.
 */
module Admission {
  import opened Common
  import opened Lru

  const TWO_32: nat := 0x1_0000_0000

  datatype Policy = Policy(admitRatio: real, evictRatio: real, minSamples: nat, minDwell: int, defaultAdmit: bool)

  datatype Sample = Sample(now: int, readCount: nat, writeCount: nat)

  datatype KeyState = KeyState(admitted: bool, since: int)

  datatype Ratio = Finite(value: real) | Infinity

  type Log = seq<Use<Sample>>

  /** NewPolicy: whatever is unusable takes a default. */
  function NewPolicy(o: Policy): (p: Policy)
    ensures Usable(p) && (Usable(o) ==> p == o) && p.defaultAdmit == o.defaultAdmit
    ensures (o.admitRatio > 0.0 ==> p.admitRatio == o.admitRatio) && (o.admitRatio <= 0.0 ==> p.admitRatio == 20.0)
    ensures p.evictRatio == o.evictRatio || (p.evictRatio + p.evictRatio == p.admitRatio && !(0.0 < o.evictRatio <= p.admitRatio))
    ensures (o.minSamples > 0 ==> p.minSamples == o.minSamples) && (o.minDwell >= 0 ==> p.minDwell == o.minDwell)
  {
    var admit := if o.admitRatio <= 0.0 then 20.0 else o.admitRatio;
    Policy(admit,
           if o.evictRatio <= 0.0 || o.evictRatio > admit then admit / 2.0 else o.evictRatio,
           if o.minSamples == 0 then 20 else o.minSamples,
           if o.minDwell < 0 then 0 else o.minDwell,
           o.defaultAdmit)
  }

  predicate Usable(p: Policy) {
    0.0 < p.evictRatio <= p.admitRatio && p.minSamples > 0 && p.minDwell >= 0
  }

  function RatioOf(readCount: nat, writeCount: nat): Ratio {
    if writeCount == 0 then (if readCount == 0 then Finite(0.0) else Infinity)
    else Finite(readCount as real / writeCount as real)
  }

  predicate AtLeast(r: Ratio, threshold: real) { r.Infinity? || r.value >= threshold }

  /** The 32-bit sum of the counts is under the evidence floor. */
  predicate TooFew(p: Policy, x: Sample) { (x.readCount + x.writeCount) % TWO_32 < p.minSamples }

  predicate Dwelling(p: Policy, st: KeyState, x: Sample) {
    p.minDwell > 0 && st.since != 0 && x.now - st.since < p.minDwell
  }

  /** Decide. */
  predicate Admits(p: Policy, st: KeyState, x: Sample) {
    var ratio := RatioOf(x.readCount, x.writeCount);
    if TooFew(p, x) then p.defaultAdmit
    else if Dwelling(p, st, x) then st.admitted
    else if !st.admitted && AtLeast(ratio, p.admitRatio) then true
    else if st.admitted && !AtLeast(ratio, p.evictRatio) then false
    else st.admitted
  }

  /**
   The band cannot oscillate by itself: when a decision moves a key, the same counts leave it where it was
   moved, at any later time and however long it has dwelt there.
   */
  lemma SameEvidenceSameDecision(o: Policy, st: KeyState, x: Sample, st': KeyState, x': Sample)
    requires x'.readCount == x.readCount && x'.writeCount == x.writeCount
    requires Admits(NewPolicy(o), st, x) == st'.admitted != st.admitted
    ensures Admits(NewPolicy(o), st', x') == st'.admitted
  {
  }

  /**
   What a decision on enough evidence, past the dwell, comes down to: reads against a multiple of writes, the
   lower multiple for a key already admitted. Division, infinity and zero writes leave no trace.
   */
  lemma DecisionByCounts(p: Policy, st: KeyState, x: Sample)
    requires Usable(p) && !TooFew(p, x) && !Dwelling(p, st, x)
    ensures Admits(p, st, x) <==>
              x.readCount as real >= (if st.admitted then p.evictRatio else p.admitRatio) * x.writeCount as real
  {
    var threshold := if st.admitted then p.evictRatio else p.admitRatio;
    if x.writeCount > 0 {
      RatioByProduct(x.readCount as real, x.writeCount as real, threshold);
    } else {
      assert threshold * 0.0 == 0.0 && x.readCount > 0;
    }
  }

  /**
   The whole decision, from the numbers, for counts whose sum fits in 32 bits: under MinSamples the default; within
   MinDwell of the last change no change; otherwise reads against the multiple of writes that goes with the state.
   */
  lemma DecisionFormula(p: Policy, st: KeyState, x: Sample)
    requires Usable(p) && x.readCount + x.writeCount < TWO_32 && st.since > 0
    ensures Admits(p, st, x) <==>
              if x.readCount + x.writeCount < p.minSamples then p.defaultAdmit
              else if x.now - st.since < p.minDwell && p.minDwell > 0 then st.admitted
              else x.readCount as real >= (if st.admitted then p.evictRatio else p.admitRatio) * x.writeCount as real
  {
    if !TooFew(p, x) && !Dwelling(p, st, x) {
      DecisionByCounts(p, st, x);
    }
  }

  lemma RatioByProduct(a: real, b: real, t: real)
    requires b > 0.0
    ensures a / b >= t <==> a >= t * b
  {
    assert a / b * b == a;
    if a / b >= t {
      assert (a / b - t) * b >= 0.0;
    } else {
      assert (t - a / b) * b > 0.0;
    }
  }

  // ---- one key's state, and the controller's log ----

  function Move(p: Policy, st: KeyState, x: Sample): KeyState {
    if Admits(p, st, x) != st.admitted then KeyState(!st.admitted, x.now) else st
  }

  function StateOf(p: Policy, samples: seq<Sample>): KeyState
    requires samples != []
  {
    Move(p, if |samples| == 1 then KeyState(true, samples[0].now) else StateOf(p, samples[..|samples| - 1]),
         samples[|samples| - 1])
  }

  /** The state a sample is decided against: the one kept, or a new one if the key is not in the table. */
  function Before(p: Policy, bound: nat, log: Log, u: Use<Sample>): KeyState {
    if u.key in Order(log, bound) && Since(log, bound, u.key) != [] then StateOf(p, Since(log, bound, u.key))
    else KeyState(true, u.item.now)
  }

  /** The i-th call moved its key out of the cache. */
  predicate Evicts(p: Policy, bound: nat, log: Log, i: nat)
    requires i < |log|
  {
    var st := Before(p, bound, log[..i], log[i]);
    st.admitted && !Admits(p, st, log[i].item)
  }

  /** A clock that does not go back and is never the zero time. */
  ghost predicate Timely(log: Log) {
    && (forall i :: 0 <= i < |log| ==> log[i].item.now > 0)
    && forall i, j :: 0 <= i <= j < |log| ==> log[i].item.now <= log[j].item.now
  }

  /** What the table holds for a key after one more call. */
  lemma StateAfter(p: Policy, bound: nat, log: Log, u: Use<Sample>)
    requires bound > 0
    ensures u.key in Order(log + [u], bound) && Since(log + [u], bound, u.key) != []
    ensures StateOf(p, Since(log + [u], bound, u.key)) == Move(p, Before(p, bound, log, u), u.item)
  {
    Snoc(log, bound, u);
    OrderBasics(log, bound);
    var samples := Since(log, bound, u.key);
    if u.key in Order(log, bound) {
      SinceNonEmpty(log, bound, u.key);
      assert (samples + [u.item])[..|samples|] == samples;
    }
  }

  /** Since call i, the key is out of the cache, or came back into it no earlier than call i. */
  ghost predicate BackSince(p: Policy, bound: nat, log: Log, k: string, t: int) {
    k in Order(log, bound) ==>
      Since(log, bound, k) != [] &&
      var st := StateOf(p, Since(log, bound, k)); st.since >= t
  }

  lemma {:induction false} BackSinceEviction(p: Policy, bound: nat, log: Log, i: nat)
    requires bound > 0 && Timely(log) && i < |log| && Evicts(p, bound, log, i)
    ensures BackSince(p, bound, log, log[i].key, log[i].item.now)
    decreases |log|
  {
    var init, u, k := log[..|log| - 1], log[|log| - 1], log[i].key;
    assert log == init + [u];
    StateAfter(p, bound, init, u);
    if i < |init| {
      assert init[..i] == log[..i];
      BackSinceEviction(p, bound, init, i);
      Snoc(init, bound, u);
      HeldAfter(init, bound, u, k);
    } else {
      assert log[..i] == init;
    }
  }

  /**
   Anti-oscillation: with DefaultAdmit and a positive MinDwell, any two evictions of one key are at least
   MinDwell apart, though the key may fall out of the table and be created again in between, and though the
   too-few-samples path skips the dwell.
   */
  lemma EvictionsAreSpaced(p: Policy, bound: nat, log: Log, i: nat, j: nat)
    requires bound > 0 && p.minDwell > 0 && p.defaultAdmit && Timely(log)
    requires i < j < |log| && log[i].key == log[j].key
    requires Evicts(p, bound, log, i) && Evicts(p, bound, log, j)
    ensures log[j].item.now - log[i].item.now >= p.minDwell
  {
    var init := log[..j];
    assert init[..i] == log[..i];
    BackSinceEviction(p, bound, init, i);
  }

  /** A state younger than the dwell stands, either way, unless the evidence is too thin to decide at all. */
  lemma DwellKeeps(p: Policy, st: KeyState, x: Sample)
    requires p.minDwell > 0 && st.since > 0 && x.now - st.since < p.minDwell
    ensures Admits(p, st, x) == if TooFew(p, x) then p.defaultAdmit else st.admitted
  {
  }

  /** A key the table does not hold starts admitted, and serves its dwell before the evidence counts. */
  lemma NewKeysServeTheirDwell(p: Policy, bound: nat, log: Log, u: Use<Sample>)
    requires u.key !in Order(log, bound) && u.item.now > 0 && p.minDwell > 0 && !TooFew(p, u.item)
    ensures Admits(p, Before(p, bound, log, u), u.item)
  {
  }

  /** From call i to call j the key stayed in the table and every one of its calls had evidence enough. */
  ghost predicate SteadyFrom(p: Policy, bound: nat, log: Log, i: nat, j: nat) {
    && i < j < |log| && log[i].key == log[j].key
    && (forall m :: i < m <= j ==> log[i].key in Order(log[..m], bound))
    && forall m :: i < m <= j && log[m].key == log[i].key ==> !TooFew(p, log[m].item)
  }

  /** The table holds k out of the cache since t. */
  ghost predicate OutAt(p: Policy, bound: nat, log: Log, k: string, t: int) {
    Since(log, bound, k) != [] && StateOf(p, Since(log, bound, k)) == KeyState(false, t)
  }

  /** Call m comes before the dwell from t is over, finds k in the table, and if it is about k has evidence enough. */
  ghost predicate WithinDwell(p: Policy, bound: nat, log: Log, m: nat, k: string, t: int) {
    && m < |log| && k in Order(log[..m], bound) && log[m].item.now - t < p.minDwell
    && (log[m].key == k ==> !TooFew(p, log[m].item))
  }

  lemma OutStep(p: Policy, bound: nat, whole: Log, m: nat, k: string, t: int)
    requires bound > 0 && p.minDwell > 0 && t > 0 && WithinDwell(p, bound, whole, m, k, t)
    requires OutAt(p, bound, whole[..m], k, t)
    ensures OutAt(p, bound, whole[..m + 1], k, t)
  {
    var log, u := whole[..m], whole[m];
    assert whole[..m + 1] == log + [u];
    Snoc(log, bound, u);
    if u.key == k {
      StateAfter(p, bound, log, u);
      DwellKeeps(p, KeyState(false, t), u.item);
    }
  }

  lemma {:induction false} OutStays(p: Policy, bound: nat, log: Log, i: nat, j: nat, k: string, t: int)
    requires bound > 0 && p.minDwell > 0 && t > 0 && i <= j <= |log| && OutAt(p, bound, log[..i], k, t)
    requires forall m :: i <= m < j ==> WithinDwell(p, bound, log, m, k, t)
    ensures OutAt(p, bound, log[..j], k, t)
    decreases j
  {
    if i < j {
      OutStays(p, bound, log, i, j - 1, k, t);
      OutStep(p, bound, log, j - 1, k, t);
    }
  }

  lemma OutOnEviction(p: Policy, bound: nat, log: Log, i: nat)
    requires bound > 0 && p.minDwell > 0 && i < |log| && Evicts(p, bound, log, i)
    ensures OutAt(p, bound, log[..i + 1], log[i].key, log[i].item.now)
  {
    assert log[..i + 1] == log[..i] + [log[i]];
    StateAfter(p, bound, log[..i], log[i]);
  }

  /** A key evicted less than MinDwell ago is not readmitted on evidence, however read-heavy it has become. */
  lemma EvictedStaysOut(p: Policy, bound: nat, log: Log, i: nat, j: nat)
    requires bound > 0 && p.minDwell > 0 && Timely(log) && SteadyFrom(p, bound, log, i, j) && Evicts(p, bound, log, i)
    requires log[j].item.now - log[i].item.now < p.minDwell
    ensures !Admits(p, Before(p, bound, log[..j], log[j]), log[j].item)
  {
    var k, t := log[i].key, log[i].item.now;
    OutOnEviction(p, bound, log, i);
    forall m | i < m < j ensures WithinDwell(p, bound, log, m, k, t) {
    }
    OutStays(p, bound, log, i + 1, j, k, t);
  }

  // ---- exactly when ----

  ghost predicate Spaced(p: Policy, bound: nat) {
    forall log: Log, i: nat, j: nat ::
      Timely(log) && i < j < |log| && log[i].key == log[j].key && Evicts(p, bound, log, i) && Evicts(p, bound, log, j) ==>
        log[j].item.now - log[i].item.now >= p.minDwell
  }

  /** Without DefaultAdmit the promise fails for every table size: enough other keys push the evicted one out. */
  lemma SpacedIffDefaultAdmit(p: Policy, bound: nat)
    requires Usable(p) && bound > 0 && p.minDwell > 0
    ensures Spaced(p, bound) <==> p.defaultAdmit
  {
    if p.defaultAdmit {
      forall log: Log, i: nat, j: nat |
        Timely(log) && i < j < |log| && log[i].key == log[j].key && Evicts(p, bound, log, i) && Evicts(p, bound, log, j)
        ensures log[j].item.now - log[i].item.now >= p.minDwell
      {
        EvictionsAreSpaced(p, bound, log, i, j);
      }
    } else {
      var log := Crowd(bound) + [Quiet("")];
      CrowdPushesOut(bound);
      assert log[..bound + 1] == Crowd(bound);
      assert log[..0] == [];
      assert Evicts(p, bound, log, 0) && Evicts(p, bound, log, bound + 1);
    }
  }

  /** A first sample of a key, with no evidence, at the first instant. */
  function Quiet(k: string): Use<Sample> { Use(k, Sample(1, 0, 0)) }

  function Name(i: nat): string { seq(i + 1, _ => 'x') }

  /** The empty key, then n others. */
  function Crowd(n: nat): (log: Log)
    ensures |log| == n + 1 && log[0] == Quiet("") && forall i :: 0 < i <= n ==> log[i] == Quiet(Name(i - 1))
  {
    if n == 0 then [Quiet("")] else Crowd(n - 1) + [Quiet(Name(n - 1))]
  }

  lemma CrowdPushesOut(bound: nat)
    requires bound > 0
    ensures "" !in Order(Crowd(bound), bound)
  {
    var log, others := Crowd(bound), seq(bound, i requires 0 <= i => Name(i));
    LastUseIsLast(log, "");
    forall i | 0 < i <= bound ensures log[i].key != "" {
      assert |Name(i - 1)| == i;
    }
    forall i, j | 0 <= i < j < bound
      ensures others[i] != others[j]
    {
      assert |others[i]| == i + 1 && |others[j]| == j + 1;
    }
    DistinctSetSize(others);
    forall k ensures k in others <==> k in UsedAfter(log, 1) {
      if k in others {
        var i :| 0 <= i < bound && others[i] == k;
        assert log[i + 1].key == k;
      }
      if k in UsedAfter(log, 1) {
        var i :| 1 <= i < |log| && log[i].key == k;
        assert others[i - 1] == k;
      }
    }
    assert UsedAfter(log, 1) == set k | k in others;
    HeldIff(log, bound, "");
  }

  // ---- the controller ----

  /** The table is right about key k: present exactly when held, with the state its samples imply. */
  ghost predicate Keeps(p: Policy, bound: nat, byKey: map<string, KeyState>, log: Log, k: string) {
    && (k in byKey <==> k in Order(log, bound))
    && (k in byKey ==> Since(log, bound, k) != [] && byKey[k] == StateOf(p, Since(log, bound, k)))
  }

  lemma KeepsAfter(p: Policy, bound: nat, was: map<string, KeyState>, log: Log, u: Use<Sample>,
                   now: map<string, KeyState>, k: string)
    requires bound > 0 && Keeps(p, bound, was, log, k) && Keeps(p, bound, was, log, u.key)
    requires k in now <==> k in Touch(Order(log, bound), bound, u.key)
    requires k == u.key ==> k in now && now[k] == Move(p, Before(p, bound, log, u), u.item)
    requires k != u.key && k in now ==> k in was && now[k] == was[k]
    ensures Keeps(p, bound, now, log + [u], k)
  {
    Snoc(log, bound, u);
    StateAfter(p, bound, log, u);
  }

  class Controller {
    const policy: Policy
    const bound: nat
    var order: seq<string>
    var byKey: map<string, KeyState>
    ghost var log: Log

    ghost predicate HoldsAt(k: string)
      reads this
    {
      Keeps(policy, bound, byKey, log, k)
    }

    ghost predicate Valid()
      reads this
    {
      bound > 0 && order == Order(log, bound) && forall k :: HoldsAt(k)
    }

    constructor (p: Policy, statesTracked: int)
      ensures Valid() && log == [] && policy == p && bound == (if statesTracked <= 0 then 100_000 else statesTracked)
    {
      policy := p;
      bound := if statesTracked <= 0 then 100_000 else statesTracked;
      order, byKey, log := [], map[], [];
    }

    /** Explain, and ShouldCache. */
    method Explain(key: string, x: Sample) returns (admit: bool)
      requires Valid()
      modifies this
      ensures Valid() && log == old(log) + [Use(key, x)]
      ensures admit == Admits(policy, Before(policy, bound, old(log), Use(key, x)), x)
    {
      ghost var u := Use(key, x);
      StateAfter(policy, bound, log, u);
      Snoc(log, bound, u);
      OrderBasics(log, bound);
      forall k ensures k in byKey <==> k in order {
        assert HoldsAt(k);
      }
      assert HoldsAt(key);
      var state := StateLocked(key, x.now);
      admit := Admits(policy, state, x);
      if admit != state.admitted {
        byKey := byKey[key := KeyState(admit, x.now)];
      }
      log := log + [u];
      forall k ensures HoldsAt(k) {
        assert old(HoldsAt(k)) && old(HoldsAt(key));
        KeepsAfter(policy, bound, old(byKey), old(log), u, byKey, k);
      }
    }

    /** stateLocked: the key's state moved to the front, or a new admitted one in place of the oldest. */
    method StateLocked(key: string, now: int) returns (state: KeyState)
      requires bound > 0 && Distinct(order) && forall k :: k in byKey <==> k in order
      modifies this`order, this`byKey
      ensures order == Touch(old(order), bound, key) && forall k :: k in byKey <==> k in order
      ensures state == if key in old(byKey) then old(byKey)[key] else KeyState(true, now)
      ensures key in byKey && byKey[key] == state
      ensures forall k :: k in byKey && k != key ==> k in old(byKey) && byKey[k] == old(byKey)[k]
    {
      WithoutKeeps(order, key);
      if key in byKey {
        order := [key] + Without(order, key);
        return byKey[key];
      }
      if |order| >= bound {
        var back := order[|order| - 1];
        forall k ensures k in order[..|order| - 1] <==> k in order && k != back {
          InFront(order, k);
        }
        byKey := byKey - {back};
        order := order[..|order| - 1];
      }
      state := KeyState(true, now);
      order := [key] + order;
      byKey := byKey[key := state];
    }
  }
}
