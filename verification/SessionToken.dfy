/**
 The client's session token (pkg/consistency/session.go): per-shard watermarks, at most `max` of them.

 The token is compared with the log of everything it was advanced by.
 */
module SessionToken {
  import opened Common
  import opened Lru

  const DEFAULT_MAX_SESSION_SHARDS: nat := 64

  datatype Watermark = Watermark(version: nat, used: nat)

  function Highest(vs: seq<nat>): nat {
    if vs == [] then 0 else Max(Highest(vs[..|vs| - 1]), vs[|vs| - 1])
  }

  lemma {:induction false} HighestIsMaximum(vs: seq<nat>)
    ensures forall i :: 0 <= i < |vs| ==> vs[i] <= Highest(vs)
    ensures vs != [] && Highest(vs) > 0 ==> Highest(vs) in vs
  {
    if vs != [] {
      HighestIsMaximum(vs[..|vs| - 1]);
    }
  }

  lemma HighestSnoc(vs: seq<nat>, v: nat)
    ensures Highest(vs + [v]) == Max(Highest(vs), v)
  {
    assert (vs + [v])[..|vs|] == vs;
  }

  type Log = seq<Use<nat>>

  /** What a token that was advanced by this log knows of a shard. */
  function Known(log: Log, max: nat, shard: string): (w: Option<nat>) {
    if shard in Order(log, max) then Some(Highest(Since(log, max, shard))) else None
  }

  function Touched(log: Log): set<string> { set i | 0 <= i < |log| :: log[i].key }

  lemma TouchedByLastUse(log: Log, shard: string)
    ensures shard in Touched(log) <==> LastUse(log, shard) > 0
  {
    LastUseIsLast(log, shard);
  }

  // ---- over every run of advances ----

  /** One advance never lowers a watermark that is still held, and always covers the version it was given. */
  lemma AdvanceNeverRegresses(log: Log, max: nat, u: Use<nat>, shard: string)
    requires max > 0
    ensures Known(log + [u], max, u.key).Some? && Known(log + [u], max, u.key).value >= u.item
    ensures Known(log, max, shard).Some? && Known(log + [u], max, shard).Some? ==>
              Known(log, max, shard).value <= Known(log + [u], max, shard).value
    ensures shard != u.key && Known(log + [u], max, shard).Some? ==> Known(log + [u], max, shard) == Known(log, max, shard)
  {
    Snoc(log, max, u);
    HighestSnoc(Since(log, max, u.key), u.item);
    OrderBasics(log, max);
    WithoutKeeps(Order(log, max), u.key);
  }

  /** A session that touches no more shards than its cap holds, for each, the highest version it was ever given. */
  lemma NothingEvictedWithinCap(log: Log, max: nat, shard: string)
    requires max > 0 && |Touched(log)| <= max
    ensures Known(log, max, shard) == if shard in Touched(log) then Some(Highest(ItemsOf(log, shard))) else None
  {
    RecentByLastUse(log);
    forall k ensures k in Recent(log) <==> k in Touched(log) {
      TouchedByLastUse(log, k);
    }
    DistinctSetSize(Recent(log));
    assert Touched(log) == set k | k in Recent(log);
    NothingLost(log, max, shard);
    TouchedByLastUse(log, shard);
  }

  /**
   Merging is the pointwise maximum, whatever order the map is walked in, as long as the cap is not reached.
   `uses` is the walk: each shard of the other session once.
   */
  lemma MergeIsPointwiseMax(log: Log, max: nat, other: map<string, nat>, uses: Log, shard: string)
    requires max > 0 && WalkOf(uses, other) && |Touched(log + uses)| <= max
    ensures shard != "" && shard in other ==>
              Known(log + uses, max, shard) == Some(Max(other[shard], Known(log, max, shard).UnwrapOr(0)))
    ensures !(shard != "" && shard in other) ==> Known(log + uses, max, shard) == Known(log, max, shard)
  {
    TouchedConcat(log, uses);
    FewerTouched(Touched(log), Touched(log + uses));
    NothingEvictedWithinCap(log, max, shard);
    NothingEvictedWithinCap(log + uses, max, shard);
    ItemsConcat(log, uses, shard);
    WalkItems(uses, other, shard);
    UntouchedHasNoItems(log, shard);
    if shard != "" && shard in other {
      HighestSnoc(ItemsOf(log, shard), other[shard]);
    } else {
      assert ItemsOf(log, shard) + [] == ItemsOf(log, shard);
    }
  }

  lemma UntouchedHasNoItems(log: Log, shard: string)
    ensures shard !in Touched(log) ==> Highest(ItemsOf(log, shard)) == 0
  {
    if shard !in Touched(log) {
      Absent(log, shard);
    }
  }

  lemma TouchedConcat(log: Log, uses: Log)
    ensures Touched(log + uses) == Touched(log) + Touched(uses)
  {
    assert forall i :: 0 <= i < |log| ==> (log + uses)[i].key == log[i].key;
    assert forall i :: 0 <= i < |uses| ==> (log + uses)[|log| + i].key == uses[i].key;
  }

  lemma FewerTouched(a: set<string>, b: set<string>)
    requires a <= b
    ensures |a| <= |b|
  {
    assert b == a + (b - a);
  }

  lemma {:induction false} ItemsConcat(a: Log, b: Log, shard: string)
    ensures ItemsOf(a + b, shard) == ItemsOf(a, shard) + ItemsOf(b, shard)
    decreases b
  {
    if b == [] {
      assert a + b == a;
    } else {
      ItemsConcat(a, b[..|b| - 1], shard);
      InitOfConcat(a, b);
      Associative(ItemsOf(a, shard), ItemsOf(b[..|b| - 1], shard),
                  if b[|b| - 1].key == shard then [b[|b| - 1].item] else []);
    }
  }

  /** uses names every shard of other but "" once, with its version. */
  ghost predicate WalkOf(uses: Log, other: map<string, nat>) {
    && (forall i :: 0 <= i < |uses| ==> uses[i].key != "" && uses[i].key in other && other[uses[i].key] == uses[i].item)
    && (forall i, j :: 0 <= i < j < |uses| ==> uses[i].key != uses[j].key)
    && forall k :: k in other && k != "" ==> exists i :: 0 <= i < |uses| && uses[i].key == k
  }

  lemma WalkItems(uses: Log, other: map<string, nat>, shard: string)
    requires WalkOf(uses, other)
    ensures ItemsOf(uses, shard) == if shard != "" && shard in other then [other[shard]] else []
    ensures shard in Touched(uses) <==> shard != "" && shard in other
  {
    if shard != "" && shard in other {
      var i :| 0 <= i < |uses| && uses[i].key == shard;
      OneItem(uses, i);
    } else {
      Absent(uses, shard);
    }
  }

  lemma {:induction false} OneItem(uses: Log, i: nat)
    requires i < |uses| && forall j :: 0 <= j < |uses| && j != i ==> uses[j].key != uses[i].key
    ensures ItemsOf(uses, uses[i].key) == [uses[i].item]
  {
    var init := uses[..|uses| - 1];
    if i == |init| {
      Absent(init, uses[i].key);
    } else {
      OneItem(init, i);
    }
  }

  lemma {:induction false} Absent(uses: Log, shard: string)
    requires forall i :: 0 <= i < |uses| ==> uses[i].key != shard
    ensures ItemsOf(uses, shard) == []
  {
    if uses != [] {
      Absent(uses[..|uses| - 1], shard);
    }
  }

  // ---- what the fields hold, in terms of the log ----

  type Entries = map<string, Watermark>

  /** The fields are right about shard k: held, with its highest version and last use; or evicted; or never touched. */
  ghost predicate HoldsAt(entries: Entries, evicted: set<string>, log: Log, max: nat, k: string) {
    && (k in entries <==> k in Order(log, max))
    && (k in entries ==> entries[k] == Watermark(Highest(Since(log, max, k)), LastUse(log, k)))
    && (k in evicted <==> k !in Order(log, max) && LastUse(log, k) > 0)
  }

  ghost predicate Holds(entries: Entries, evicted: set<string>, log: Log, max: nat) {
    forall k :: HoldsAt(entries, evicted, log, max, k)
  }

  lemma HeldCount(entries: Entries, evicted: set<string>, log: Log, max: nat)
    requires max > 0 && Holds(entries, evicted, log, max)
    ensures |entries| == |Order(log, max)| <= max
  {
    OrderBasics(log, max);
    DistinctSetSize(Order(log, max));
    forall k ensures k in entries <==> k in Order(log, max) {
      assert HoldsAt(entries, evicted, log, max, k);
    }
    assert entries.Keys == set k | k in Order(log, max);
  }

  lemma HoldsAfter(entries: Entries, evicted: set<string>, log: Log, max: nat, shard: string, v: nat, k: string)
    requires max > 0 && HoldsAt(entries, evicted, log, max, k) && HoldsAt(entries, evicted, log, max, shard)
    ensures var held, w := Order(log, max), Watermark(Max(v, if shard in entries then entries[shard].version else 0), |log| + 1);
            if shard in entries || |held| < max then
              HoldsAt(entries[shard := w], evicted - {shard}, log + [Use(shard, v)], max, k)
            else
              HoldsAt((entries - {held[|held| - 1]})[shard := w], evicted + {held[|held| - 1]} - {shard},
                      log + [Use(shard, v)], max, k)
  {
    var u, held := Use(shard, v), Order(log, max);
    Snoc(log, max, u);
    HeldAfter(log, max, u, k);
    OrderBasics(log, max);
    HighestSnoc(Since(log, max, shard), v);
    assert Highest([v]) == v;
  }

  /** One advance, when there is room, and when there is not. */
  lemma AdvanceHolds(entries: Entries, evicted: set<string>, log: Log, max: nat, shard: string, v: nat)
    requires max > 0 && Holds(entries, evicted, log, max)
    ensures var held, w := Order(log, max), Watermark(Max(v, if shard in entries then entries[shard].version else 0), |log| + 1);
            if shard in entries || |held| < max then
              Holds(entries[shard := w], evicted - {shard}, log + [Use(shard, v)], max)
            else
              Holds((entries - {held[|held| - 1]})[shard := w], evicted + {held[|held| - 1]} - {shard},
                    log + [Use(shard, v)], max)
  {
    var held, w := Order(log, max), Watermark(Max(v, if shard in entries then entries[shard].version else 0), |log| + 1);
    var log' := log + [Use(shard, v)];
    if shard in entries || |held| < max {
      var entries', evicted' := entries[shard := w], evicted - {shard};
      forall k ensures HoldsAt(entries', evicted', log', max, k) {
        assert HoldsAt(entries, evicted, log, max, k) && HoldsAt(entries, evicted, log, max, shard);
        HoldsAfter(entries, evicted, log, max, shard, v, k);
      }
    } else {
      var last := held[|held| - 1];
      var entries', evicted' := (entries - {last})[shard := w], evicted + {last} - {shard};
      forall k ensures HoldsAt(entries', evicted', log', max, k) {
        assert HoldsAt(entries, evicted, log, max, k) && HoldsAt(entries, evicted, log, max, shard);
        HoldsAfter(entries, evicted, log, max, shard, v, k);
      }
    }
  }

  /** The shard the scan finds is the last of the recency list: last uses differ. */
  lemma LeastUsedIsLast(entries: Entries, evicted: set<string>, log: Log, max: nat, victim: string)
    requires max > 0 && Holds(entries, evicted, log, max)
    requires victim in entries && forall k :: k in entries ==> entries[victim].used <= entries[k].used
    ensures Order(log, max) != [] && victim == Order(log, max)[|Order(log, max)| - 1]
  {
    var held := Order(log, max);
    OrderBasics(log, max);
    assert HoldsAt(entries, evicted, log, max, victim);
    var last := held[|held| - 1];
    assert last in held;
    assert HoldsAt(entries, evicted, log, max, last);
    var i :| 0 <= i < |held| && held[i] == victim;
  }

  // ---- the token ----

  class Token {
    const max: nat
    var clock: nat
    var entries: map<string, Watermark>
    var evicted: set<string>

    ghost var log: Log

    ghost predicate Valid()
      reads this
    {
      max > 0 && clock == |log| && Holds(entries, evicted, log, max)
    }

    constructor (maxShards: int)
      ensures Valid() && log == []
      ensures max == if maxShards <= 0 then DEFAULT_MAX_SESSION_SHARDS else maxShards
    {
      max := if maxShards <= 0 then DEFAULT_MAX_SESSION_SHARDS else maxShards;
      clock, entries, evicted, log := 0, map[], {}, [];
    }

    method Advance(shard: string, v: nat)
      requires Valid()
      modifies this
      ensures Valid() && log == if shard == "" then old(log) else old(log) + [Use(shard, v)]
    {
      if shard != "" {
        AdvanceLocked(shard, v);
      }
    }

    method AdvanceLocked(shard: string, v: nat)
      requires Valid()
      modifies this
      ensures Valid() && log == old(log) + [Use(shard, v)]
    {
      HeldCount(entries, evicted, log, max);
      AdvanceHolds(entries, evicted, log, max, shard, v);
      clock := clock + 1;
      if shard in entries {
        var cur := entries[shard];
        entries := entries[shard := Watermark(if v > cur.version then v else cur.version, clock)];
        assert evicted == evicted - {shard} by {
          assert HoldsAt(old(entries), evicted, log, max, shard);
        }
      } else {
        if |entries| >= max {
          var victim := EvictOldest();
          LeastUsedIsLast(old(entries), old(evicted), log, max, victim);
        }
        entries := entries[shard := Watermark(v, clock)];
        evicted := evicted - {shard};
      }
      log := log + [Use(shard, v)];
    }

    /** The scan walks the map in no particular order; the result is the victim, for the proof's sake. */
    method EvictOldest() returns (ghost victim: string)
      requires |entries| > 0
      modifies this`entries, this`evicted
      ensures victim in old(entries) && forall k :: k in old(entries) ==> old(entries)[victim].used <= old(entries)[k].used
      ensures entries == old(entries) - {victim} && evicted == old(evicted) + {victim}
    {
      var oldest := "";
      var found := false;
      var todo := entries.Keys;
      while todo != {}
        invariant todo <= entries.Keys && (todo != entries.Keys ==> found)
        invariant found ==> oldest in entries
        invariant found ==> forall k :: k in entries && k !in todo ==> entries[oldest].used <= entries[k].used
        decreases |todo|
      {
        var shard :| shard in todo;
        if !found || entries[shard].used < entries[oldest].used {
          oldest, found := shard, true;
        }
        todo := todo - {shard};
      }
      victim := oldest;
      entries := entries - {oldest};
      evicted := evicted + {oldest};
    }

    /** Merge, for whatever order the map is walked in. */
    method Merge(other: map<string, nat>) returns (ghost uses: Log)
      requires Valid()
      modifies this
      ensures Valid() && log == old(log) + uses && WalkOf(uses, other)
    {
      uses := [];
      var todo := other.Keys;
      while todo != {}
        invariant Valid() && log == old(log) + uses && todo <= other.Keys
        invariant forall i :: 0 <= i < |uses| ==>
                    uses[i].key != "" && uses[i].key in other && other[uses[i].key] == uses[i].item && uses[i].key !in todo
        invariant forall i, j :: 0 <= i < j < |uses| ==> uses[i].key != uses[j].key
        invariant forall k :: k in other && k != "" && k !in todo ==> exists i :: 0 <= i < |uses| && uses[i].key == k
        decreases |todo|
      {
        var shard :| shard in todo;
        todo := todo - {shard};
        if shard != "" {
          AdvanceLocked(shard, other[shard]);
          ghost var u := Use(shard, other[shard]);
          forall k | k in other && k != "" && k !in todo
            ensures exists i :: 0 <= i < |uses + [u]| && (uses + [u])[i].key == k
          {
            if k == shard {
              assert (uses + [u])[|uses|].key == k;
            } else {
              var i :| 0 <= i < |uses| && uses[i].key == k;
              assert (uses + [u])[i].key == k;
            }
          }
          uses := uses + [u];
        }
      }
    }

    /** Watermark: known exactly for the `max` most recently used shards, and then the highest version since entry. */
    method Position(shard: string) returns (version: nat, known: bool)
      requires Valid()
      ensures known <==> shard in Recent(log)[..Min(max, |Recent(log)|)]
      ensures known ==> Some(version) == Known(log, max, shard)
      ensures known ==> forall i :: 0 <= i < |Since(log, max, shard)| ==> Since(log, max, shard)[i] <= version
      ensures known && version > 0 ==> version in Since(log, max, shard)
      ensures !known ==> version == 0
    {
      OrderIsMostRecent(log, max);
      assert HoldsAt(entries, evicted, log, max, shard);
      if shard in Order(log, max) {
        OrderBasics(log, max);
        SinceNonEmpty(log, max, shard);
        HighestIsMaximum(Since(log, max, shard));
      }
      known := shard in entries;
      version := if known then entries[shard].version else 0;
    }

    /** Degraded: touched, and no longer held. Held and evicted shards partition those touched. */
    method Degraded(shard: string) returns (yes: bool)
      requires Valid()
      ensures yes <==> shard in Touched(log) && Known(log, max, shard).None?
      ensures entries.Keys + evicted == Touched(log) && entries.Keys !! evicted && |entries| <= max
    {
      HeldCount(entries, evicted, log, max);
      forall k
        ensures k in Touched(log) <==> k in entries || k in evicted
        ensures !(k in entries && k in evicted) && (k in entries <==> k in Order(log, max))
      {
        assert HoldsAt(entries, evicted, log, max, k);
        TouchedByLastUse(log, k);
        OrderBasics(log, max);
      }
      yes := shard in evicted;
    }
  }
}
