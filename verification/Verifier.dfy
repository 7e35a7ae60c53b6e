/**
 The staleness verifier (pkg/sextant/verifier.go, pkg/sextant/verify.go): which checks are reported as
 violations, against the whole history of checks.

 What the cache, the origin and the clock answered during one check is its probe.
 */
module Verifier {
  import opened Common

  datatype Tier = ByValue | ByVersion | Cachet

  datatype Level = Eventual | Session | Bounded | Strong

  /** What an adapter supplied about a key: a version, the bytes, either or neither. */
  datatype Image = Image(version: Option<nat>, value: Option<seq<int>>)

  /** Each side either fails, finds nothing, or finds an image. */
  datatype Probe = Probe(key: string, origin: Result<Option<Image>, ()>, cache: Result<Option<Image>, ()>,
                         shard: Result<string, ()>, now: int)

  datatype Versions = Versions(fill: nat, db: nat)

  datatype Difference = Difference(behind: bool, versions: Option<Versions>)

  datatype Bound = Bound(writePathBudget: int, cdcLagBound: int, maxClockSkew: int)

  function Duration(b: Bound): int { b.writePathBudget + b.cdcLagBound + b.maxClockSkew }

  predicate ComparesVersions(tier: Tier) { tier.ByVersion? || tier.Cachet? }

  /** compare: an adapter that does not supply what the tier needs is an error. */
  function Compare(tier: Tier, entry: Image, state: Image): Result<Difference, ()> {
    if ComparesVersions(tier) then
      if entry.version.None? || state.version.None? then Err(())
      else Ok(Difference(entry.version.value < state.version.value, Some(Versions(entry.version.value, state.version.value))))
    else if entry.value.None? || state.value.None? then Err(())
    else Ok(Difference(entry.value != state.value, None))
  }

  datatype Outcome = Failed | Gone | CaughtUp | Behind(diff: Difference)

  /** How one check ends, before any timing. A failed check changes nothing. */
  function Observe(tier: Tier, p: Probe): Outcome {
    if p.origin.Err? || p.cache.Err? then Failed
    else if p.origin.value.None? || p.cache.value.None? then Gone
    else match Compare(tier, p.cache.value.value, p.origin.value.value)
      case Err(_) => Failed
      case Ok(diff) => if !diff.behind then CaughtUp else if p.shard.Err? then Failed else Behind(diff)
  }

  /** Comparing versions, behind is strictly older: an entry level with the database, or ahead of it, is not. */
  lemma BehindIsOlder(key: string, fill: nat, db: nat, a: Option<seq<int>>, b: Option<seq<int>>, shard: string, now: int)
    ensures forall tier :: ComparesVersions(tier) ==>
              var p := Probe(key, Ok(Some(Image(Some(db), b))), Ok(Some(Image(Some(fill), a))), Ok(shard), now);
              && (fill < db ==> Observe(tier, p) == Behind(Difference(true, Some(Versions(fill, db)))))
              && (fill >= db ==> Observe(tier, p) == CaughtUp)
  {
  }

  /** Comparing bytes, behind is different: equal bytes are caught up, whatever versions either side knows. */
  lemma BehindIsDifferent(key: string, cached: seq<int>, held: seq<int>, a: Option<nat>, b: Option<nat>, shard: string, now: int)
    ensures var p := Probe(key, Ok(Some(Image(b, Some(held)))), Ok(Some(Image(a, Some(cached)))), Ok(shard), now);
            && (cached != held ==> Observe(ByValue, p) == Behind(Difference(true, None)))
            && (cached == held ==> Observe(ByValue, p) == CaughtUp)
  {
  }

  /** The adapters supplied what the tier compares. */
  predicate Comparable(tier: Tier, entry: Image, state: Image) {
    if tier == ByValue then entry.value.Some? && state.value.Some? else entry.version.Some? && state.version.Some?
  }

  /**
   When a check fails or finds nothing: it fails exactly when a side did not answer, an adapter withheld what the
   tier needs, or a key found behind could not be placed on a shard; it finds the key gone exactly when both
   answered and one has no row.
   */
  lemma FailedExactly(tier: Tier, p: Probe)
    ensures Observe(tier, p).Gone? <==> p.origin.Ok? && p.cache.Ok? && (p.origin.value.None? || p.cache.value.None?)
    ensures Observe(tier, p).Failed? <==>
              || p.origin.Err? || p.cache.Err?
              || (p.origin.value.Some? && p.cache.value.Some?
                  && (!Comparable(tier, p.cache.value.value, p.origin.value.value)
                      || (Observe(tier, p.(shard := Ok(""))).Behind? && p.shard.Err?)))
  {
  }

  // ---- Classify ----

  datatype Violation = Violation(key: string, shard: string, diff: Difference, behind: int, levels: seq<Level>)

  datatype Observation = Observation(key: string, shard: string, diff: Difference, behindSince: int, now: int,
                                     watermark: Option<nat>, boundedWindow: int)

  function Classify(o: Observation, b: Bound): Option<Violation> {
    var behind := o.now - o.behindSince;
    if !o.diff.behind || behind <= Duration(b) then None
    else
      var session := o.diff.versions.Some? && o.watermark.Some? && o.diff.versions.value.fill < o.watermark.value;
      var bounded := o.diff.versions.Some? && o.boundedWindow > 0 && behind > o.boundedWindow + b.maxClockSkew;
      Some(Violation(o.key, o.shard, o.diff, behind,
                     [Eventual] + (if session then [Session] else []) + (if bounded then [Bounded] else [])))
  }

  /** STRONG is never blamed, EVENTUAL always is, and the levels that need an ordering only where there is one. */
  lemma BlameIsSupported(o: Observation, b: Bound)
    requires Classify(o, b).Some?
    ensures var v := Classify(o, b).value;
            && Eventual in v.levels && Strong !in v.levels
            && (o.diff.versions.None? ==> v.levels == [Eventual])
            && (Session in v.levels <==> exists f, d, w ::
                  o.diff.versions == Some(Versions(f, d)) && o.watermark == Some(w) && f < w)
            && (Bounded in v.levels <==>
                  o.diff.versions.Some? && o.boundedWindow > 0 && o.now - o.behindSince > o.boundedWindow + b.maxClockSkew)
            && v.key == o.key && v.shard == o.shard && v.diff == o.diff && v.behind == o.now - o.behindSince
  {
    if o.diff.versions.Some? && o.watermark.Some? {
      assert o.diff.versions == Some(Versions(o.diff.versions.value.fill, o.diff.versions.value.db));
    }
  }

  // ---- the behind-since marker ----

  type Log = seq<Probe>

  function FirstBehind(tier: Tier, log: Log, key: string): Option<int> {
    if log == [] then None
    else
      var before, p := FirstBehind(tier, log[..|log| - 1], key), log[|log| - 1];
      if p.key != key then before
      else match Observe(tier, p)
        case Failed => before
        case Gone => None
        case CaughtUp => None
        case Behind(_) => if before.Some? then before else Some(p.now)
  }

  /** The verifier's own observation for a check: it knows no session and no read window. */
  function ObservationOf(p: Probe, diff: Difference, since: int): Observation
    requires p.shard.Ok?
  {
    Observation(p.key, p.shard.value, diff, since, p.now, None, 0)
  }

  function Verdict(tier: Tier, b: Bound, log: Log, p: Probe): Option<Violation> {
    match Observe(tier, p)
    case Behind(diff) => Classify(ObservationOf(p, diff, FirstBehind(tier, log, p.key).UnwrapOr(p.now)), b)
    case _ => None
  }

  /** From check m to the end of the log every completed check of the key found it behind. */
  ghost predicate Streak(tier: Tier, log: Log, key: string, m: nat) {
    && m < |log| && log[m].key == key && Observe(tier, log[m]).Behind?
    && forall i :: m <= i < |log| && log[i].key == key ==> Observe(tier, log[i]).Behind? || Observe(tier, log[i]).Failed?
  }

  lemma StreakSnoc(tier: Tier, log: Log, p: Probe, key: string, m: nat)
    ensures Streak(tier, log + [p], key, m) <==>
              && (p.key == key ==> Observe(tier, p).Behind? || Observe(tier, p).Failed?)
              && (Streak(tier, log, key, m) || (m == |log| && p.key == key && Observe(tier, p).Behind?))
  {
    var log' := log + [p];
    assert log'[|log|] == p;
    if m < |log| && Streak(tier, log', key, m) {
      assert forall i :: m <= i < |log| ==> log'[i] == log[i];
    }
  }

  /** The marker is the time of the first check of the unbroken streak, and is absent exactly when there is none. */
  lemma {:induction false} MarkerStartsTheStreak(tier: Tier, log: Log, key: string) returns (m: nat)
    ensures FirstBehind(tier, log, key).Some? ==>
              && Streak(tier, log, key, m) && FirstBehind(tier, log, key) == Some(log[m].now)
              && forall n: nat :: n < m ==> !Streak(tier, log, key, n)
    ensures FirstBehind(tier, log, key).None? ==> forall n: nat :: !Streak(tier, log, key, n)
  {
    m := 0;
    if log != [] {
      var init, p := log[..|log| - 1], log[|log| - 1];
      assert log == init + [p];
      m := MarkerStartsTheStreak(tier, init, key);
      if FirstBehind(tier, init, key).None? {
        m := |init|;
      }
      forall n: nat ensures Streak(tier, log, key, n) <==>
                         && (p.key == key ==> Observe(tier, p).Behind? || Observe(tier, p).Failed?)
                         && (Streak(tier, init, key, n) || (n == |init| && p.key == key && Observe(tier, p).Behind?))
      {
        StreakSnoc(tier, init, p, key, n);
      }
    }
  }

  ghost predicate Ordered(log: Log) {
    forall i, j :: 0 <= i <= j < |log| ==> log[i].now <= log[j].now
  }

  /**
   Exactness. With a clock that does not go back, a check reports a violation exactly when it found its key
   behind and some check more than the propagation bound earlier began a streak, unbroken to this one, in
   which every completed check of the key found it present, existing and behind.
   */
  lemma ReportedExactlyWhenLate(tier: Tier, b: Bound, log: Log, p: Probe)
    requires Ordered(log + [p])
    ensures Verdict(tier, b, log, p).Some? <==>
              Observe(tier, p).Behind? &&
              exists m: nat :: Streak(tier, log + [p], p.key, m)
                               && p.now - (log + [p])[m].now > b.writePathBudget + b.cdcLagBound + b.maxClockSkew
  {
    var log' := log + [p];
    assert log'[..|log|] == log;
    if Observe(tier, p).Behind? {
      var m := MarkerStartsTheStreak(tier, log', p.key);
      assert log'[m].now == FirstBehind(tier, log, p.key).UnwrapOr(p.now);
      forall n: nat | Streak(tier, log', p.key, n)
        ensures log'[m].now <= log'[n].now
      {
      }
    }
  }

  /**
   What a report carries: the key and shard of its check, the difference the check found, and the time since the
   first check of the streak.
   */
  lemma ReportCarries(tier: Tier, b: Bound, log: Log, p: Probe) returns (m: nat)
    requires Verdict(tier, b, log, p).Some?
    ensures m <= |log| && Streak(tier, log + [p], p.key, m) && forall n: nat :: n < m ==> !Streak(tier, log + [p], p.key, n)
    ensures var v := Verdict(tier, b, log, p).value;
            && v.key == p.key && p.shard == Ok(v.shard) && Observe(tier, p) == Behind(v.diff)
            && v.behind == p.now - (log + [p])[m].now
  {
    var log' := log + [p];
    assert log'[..|log|] == log;
    m := MarkerStartsTheStreak(tier, log', p.key);
    assert log'[m].now == FirstBehind(tier, log, p.key).UnwrapOr(p.now);
  }

  /** One check out of the streak restarts the timing: the next behind check is timed from itself. */
  lemma CatchUpRestarts(tier: Tier, b: Bound, log: Log, ok: Probe, p: Probe)
    requires ok.key == p.key && (Observe(tier, ok).CaughtUp? || Observe(tier, ok).Gone?) && Duration(b) >= 0
    ensures Verdict(tier, b, log + [ok], p).None?
  {
    assert (log + [ok])[..|log|] == log;
  }

  /** The loop observes no session watermark and no read window, so what it reports is against EVENTUAL alone. */
  lemma SamplingBlamesEventualOnly(tier: Tier, b: Bound, log: Log, p: Probe)
    requires Verdict(tier, b, log, p).Some?
    ensures Verdict(tier, b, log, p).value.levels == [Eventual]
  {
  }

  // ---- the loop ----

  datatype Stats = Stats(rounds: nat, checked: nat, violations: nat, errors: nat)

  function Reported(tier: Tier, b: Bound, before: Log, log: Log): seq<Violation> {
    if log == [] then []
    else
      var init, p := log[..|log| - 1], log[|log| - 1];
      var v := Verdict(tier, b, before + init, p);
      Reported(tier, b, before, init) + (if v.Some? then [v.value] else [])
  }

  /** A check gets as far as comparing when both sides answered with an image. */
  predicate Compared(p: Probe) {
    p.origin.Ok? && p.cache.Ok? && p.origin.value.Some? && p.cache.value.Some?
  }

  function Comparisons(log: Log): nat {
    if log == [] then 0 else Comparisons(log[..|log| - 1]) + (if Compared(log[|log| - 1]) then 1 else 0)
  }

  function Failures(tier: Tier, log: Log): nat {
    if log == [] then 0
    else Failures(tier, log[..|log| - 1]) + (if Observe(tier, log[|log| - 1]).Failed? then 1 else 0)
  }

  class Verifier {
    const tier: Tier
    const bound: Bound
    const batch: nat
    var behindSince: map<string, int>
    var stats: Stats
    ghost var log: Log

    ghost predicate Marked(key: string)
      reads this`log, this`behindSince
    {
      FirstBehind(tier, log, key) == if key in behindSince then Some(behindSince[key]) else None
    }

    ghost predicate Valid()
      reads this`log, this`behindSince
    {
      forall key :: Marked(key)
    }

    constructor (t: Tier, b: Bound, size: int)
      ensures Valid() && log == [] && stats == Stats(0, 0, 0, 0)
      ensures tier == t && bound == b && batch == if size <= 0 then 100 else size
    {
      tier, bound, batch := t, b, if size <= 0 then 100 else size;
      behindSince, stats, log := map[], Stats(0, 0, 0, 0), [];
    }

    method FirstSeenBehind(key: string, now: int) returns (since: int)
      modifies this`behindSince
      ensures since == if key in old(behindSince) then old(behindSince)[key] else now
      ensures behindSince == old(behindSince)[key := since]
    {
      if key in behindSince {
        return behindSince[key];
      }
      behindSince := behindSince[key := now];
      since := now;
    }

    /** check: its verdict, and whether it failed. */
    method Check(p: Probe) returns (found: Option<Violation>, failed: bool)
      requires Valid()
      modifies this`behindSince, this`log
      ensures Valid() && log == old(log) + [p]
      ensures found == Verdict(tier, bound, old(log), p)
      ensures failed <==> Observe(tier, p).Failed?
    {
      ghost var log' := log + [p];
      assert log'[..|log|] == log;
      assert Marked(p.key);
      found := None;
      failed := false;
      match Observe(tier, p) {
        case Failed =>
          failed := true;
        case Gone =>
          behindSince := behindSince - {p.key};
        case CaughtUp =>
          behindSince := behindSince - {p.key};
        case Behind(diff) =>
          var since := FirstSeenBehind(p.key, p.now);
          found := Classify(ObservationOf(p, diff, since), bound);
      }
      log := log';
      forall key ensures Marked(key) {
        assert old(Marked(key));
      }
    }

    /** RunOnce, for the keys the source yields: every late key of the round is reported, and counted. */
    method RunOnce(keys: Log) returns (round: Stats, found: seq<Violation>)
      requires Valid()
      modifies this
      ensures Valid() && log == old(log) + keys[..Min(batch, |keys|)]
      ensures found == Reported(tier, bound, old(log), keys[..Min(batch, |keys|)])
      ensures var done := keys[..Min(batch, |keys|)];
              && round == Stats(1, Comparisons(done), |found|, Failures(tier, done))
              && stats == Stats(old(stats.rounds) + 1, old(stats.checked) + round.checked,
                                old(stats.violations) + round.violations, old(stats.errors) + round.errors)
    {
      round, found := Stats(0, 0, 0, 0), [];
      var i := 0;
      while i < batch && i < |keys|
        invariant i <= batch && i <= |keys| && Valid() && log == old(log) + keys[..i] && stats == old(stats)
        invariant found == Reported(tier, bound, old(log), keys[..i]) 
        invariant round == Stats(0, Comparisons(keys[..i]), |found|, Failures(tier, keys[..i]))
      {
        var violation, failed := Check(keys[i]);
        assert keys[..i + 1][..i] == keys[..i];
        if Compared(keys[i]) {
          round := round.(checked := round.checked + 1);
        }
        if failed {
          round := round.(errors := round.errors + 1);
        }
        if violation.Some? {
          round := round.(violations := round.violations + 1);
          found := found + [violation.value];
        }
        i := i + 1;
      }
      stats := Stats(stats.rounds + 1, stats.checked + round.checked, stats.violations + round.violations,
                     stats.errors + round.errors);
      round := round.(rounds := 1);
    }
  }
}
