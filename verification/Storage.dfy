/**
 One shard's row operations, run on their own (internal/storage/rows.go, internal/storage/update.go), and
 the engine's conditional write across shards (internal/engine/rows.go).

 A method is one transaction that commits; `wall` is the wall clock it reads. What the database answers
 to a locking SELECT is a parameter with the statement's contract. How transactions interleave is the
 subject of the Protocol module.
 */
module Storage {
  import opened Common
  import opened Hlc

  type Key = string
  type ShardId = string

  datatype Value = Null | Bytes(bytes: seq<nat>)

  datatype Row = Row(version: Version, columns: map<string, Value>)

  datatype ColumnValue = ColumnValue(column: string, value: Value)

  datatype Error = InvalidBudget | InvalidPredicate | NotFound | ClockPanicked

  // ---- conditional writes, as values ----

  /** `a = ? AND b = ?`. SQL equality with NULL holds of nothing. */
  predicate Matches(row: Row, match': map<string, Value>) {
    forall c <- match' :: match'[c] != Null && c in row.columns && row.columns[c] == match'[c]
  }

  function Matching(rows: map<Key, Row>, match': map<string, Value>): set<Key> {
    set k | k in rows && Matches(rows[k], match')
  }

  function Assigned(row: Row, set': map<string, Value>, v: Version): Row {
    Row(v, row.columns + set')
  }

  /** The rows after `keys` were written at version v. */
  function Written(rows: map<Key, Row>, keys: set<Key>, set': map<string, Value>, v: Version): map<Key, Row> {
    map k | k in rows :: if k in keys then Assigned(rows[k], set', v) else rows[k]
  }

  /** What matching means: NULL matches nothing, and giving more columns asks for all of them. */
  lemma MatchesIsEquality(row: Row, given: map<string, Value>, more: map<string, Value>, column: string, value: Value)
    ensures column in given && given[column] == Null ==> !Matches(row, given)
    ensures value != Null && column !in given ==>
              (Matches(row, given[column := value]) <==>
                 Matches(row, given) && column in row.columns && row.columns[column] == value)
    ensures Matches(row, map[])
    ensures more.Keys !! given.Keys ==> (Matches(row, given + more) <==> Matches(row, given) && Matches(row, more))
  {
    if value != Null && column !in given {
      var both := given[column := value];
      assert forall c <- given :: c in both && both[c] == given[c];
    }
    if more.Keys !! given.Keys {
      assert forall c <- given :: c in given + more && (given + more)[c] == given[c];
      assert forall c <- more :: c in given + more && (given + more)[c] == more[c];
    }
  }

  /** What a write leaves: the given columns as given, the others as they were, at the write's version. */
  lemma AssignedColumns(row: Row, given: map<string, Value>, v: Version, column: string)
    ensures var after := Assigned(row, given, v);
            && after.version == v && (column in after.columns <==> column in row.columns || column in given)
            && (column in given ==> after.columns[column] == given[column])
            && (column !in given && column in row.columns ==> after.columns[column] == row.columns[column])
  {
  }

  predicate Distinct(keys: seq<Key>) {
    forall i, j :: 0 <= i < j < |keys| ==> keys[i] != keys[j]
  }

  /** What SELECT ... WHERE match LIMIT budget + 1 FOR UPDATE answers. */
  predicate LockedAnswer(rows: map<Key, Row>, match': map<string, Value>, budget: int, locked: seq<Key>) {
    && Distinct(locked)
    && (forall i :: 0 <= i < |locked| ==> locked[i] in Matching(rows, match'))
    && |locked| == Min(|Matching(rows, match')|, Max(budget, 0) + 1)
  }

  ghost function Elements(keys: seq<Key>): set<Key> { set k | k in keys }

  lemma {:induction false} DistinctSize(keys: seq<Key>)
    requires Distinct(keys)
    ensures |Elements(keys)| == |keys|
  {
    if keys != [] {
      var init, last := keys[..|keys| - 1], keys[|keys| - 1];
      DistinctSize(init);
      assert Elements(keys) == Elements(init) + {last} by { assert keys == init + [last]; }
      assert last !in init;
    }
  }

  lemma SubsetOfEqualSize<T>(a: set<T>, b: set<T>)
    requires a <= b && |a| == |b|
    ensures a == b
  {
    assert |b - a| == |b| - |a|;
  }

  /** A set has lists without repeats of every length up to its size. */
  lemma {:induction false} ListSome(from: set<Key>, n: nat) returns (keys: seq<Key>)
    requires n <= |from|
    ensures Distinct(keys) && |keys| == n && forall i :: 0 <= i < n ==> keys[i] in from
  {
    keys := [];
    if n > 0 {
      var k :| k in from;
      var rest := ListSome(from - {k}, n - 1);
      keys := [k] + rest;
    }
  }

  /** The locking read has an answer on every table, and it locks one row more than the budget at most. */
  lemma LockedAnswerExists(rows: map<Key, Row>, match': map<string, Value>, budget: int) returns (locked: seq<Key>)
    ensures LockedAnswer(rows, match', budget, locked) && (budget >= 0 ==> |locked| <= budget + 1)
  {
    locked := ListSome(Matching(rows, match'), Min(|Matching(rows, match')|, Max(budget, 0) + 1));
  }

  /** Under budget, the rows locked are all the rows that match: nothing is left for a second look. */
  lemma LockedIsExact(rows: map<Key, Row>, match': map<string, Value>, budget: int, locked: seq<Key>)
    requires budget > 0 && LockedAnswer(rows, match', budget, locked)
    ensures |locked| > budget <==> |Matching(rows, match')| > budget
    ensures |locked| <= budget ==> Elements(locked) == Matching(rows, match')
  {
    if |locked| <= budget {
      DistinctSize(locked);
      SubsetOfEqualSize(Elements(locked), Matching(rows, match'));
    }
  }

  datatype UpdateResult = UpdateResult(version: Version, matched: nat, affected: seq<Key>, degraded: bool)

  /** Between the locking read and the write other transactions may do anything, except to the rows locked. */
  predicate Pinned(atLock: map<Key, Row>, atWrite: map<Key, Row>, locked: seq<Key>) {
    forall i :: 0 <= i < |locked| ==> locked[i] in atLock && locked[i] in atWrite && atWrite[locked[i]] == atLock[locked[i]]
  }

  /**
   What a conditional write on one shard has to have done, the table having changed from atLock to atWrite
   between its two statements. Within budget it writes the rows that matched when they were locked, and a row
   that came to match since is left alone; over budget it writes the rows that match as it writes.
   */
  ghost predicate UpdateDone(atLock: map<Key, Row>, atWrite: map<Key, Row>, after: map<Key, Row>,
                             match': map<string, Value>, set': map<string, Value>, budget: int, r: UpdateResult)
  {
    var hit := Matching(atLock, match');
    && (r.degraded <==> |hit| > budget)
    && (r.degraded ==>
          && r.affected == [] && r.matched == |Matching(atWrite, match')|
          && after == Written(atWrite, Matching(atWrite, match'), set', r.version))
    && (!r.degraded ==>
          && Distinct(r.affected) && Elements(r.affected) == hit && r.matched == |hit|
          && after == Written(atWrite, hit, set', r.version)
          && forall k <- hit :: k in atWrite && atWrite[k] == atLock[k] && r.version > atLock[k].version)
  }

  // ---- versions ----

  /** The version the next write takes, from what the clock has seen, what it observes and the wall clock. */
  function StampAfter(last: Version, observed: Version, wall: int): int {
    Max(Max(last, observed) + 1, wall * LOGICALS)
  }

  function VersionOf(rows: map<Key, Row>, key: Key): Version { if key in rows then rows[key].version else 0 }

  /** The highest version among some rows. */
  function HighestOf(rows: map<Key, Row>, keys: seq<Key>): Version {
    if keys == [] then 0 else Max(HighestOf(rows, keys[..|keys| - 1]), VersionOf(rows, keys[|keys| - 1]))
  }

  lemma {:induction false} HighestIsMaximum(rows: map<Key, Row>, keys: seq<Key>)
    ensures forall i :: 0 <= i < |keys| ==> VersionOf(rows, keys[i]) <= HighestOf(rows, keys)
    ensures HighestOf(rows, keys) > 0 ==> exists i :: 0 <= i < |keys| && VersionOf(rows, keys[i]) == HighestOf(rows, keys)
  {
    if keys != [] {
      HighestIsMaximum(rows, keys[..|keys| - 1]);
    }
  }

  class Shard {
    var rows: map<Key, Row>
    const clock: Clock

    constructor ()
      ensures rows == map[] && fresh(clock) && clock.last == 0
    {
      rows := map[];
      clock := new Clock();
    }

    /** The fill version is sampled before the row is read, and the row's version is folded in after. */
    method GetRow(key: Key, wall: int) returns (r: Result<Option<Row>, Error>, fill: Version)
      modifies clock
      ensures rows == old(rows)
      ensures r.Err? <==> Now(old(clock.last), wall).None?
      ensures r.Ok? ==> r.value == (if key in rows then Some(rows[key]) else None)
      ensures r.Ok? ==> fill == Now(old(clock.last), wall).value >= old(clock.last)
      ensures r.Ok? ==> clock.last == Max(fill, VersionOf(rows, key))
    {
      var sample := clock.Sample(wall);
      if sample.None? {
        return Err(ClockPanicked), 0;
      }
      fill := sample.value;
      if key !in rows {
        return Ok(None), fill;
      }
      clock.Adopt(rows[key].version);
      r := Ok(Some(rows[key]));
    }

    /** The write outranks the row it replaces and everything this clock has seen. */
    method PutRow(key: Key, columns: map<string, Value>, wall: int) returns (r: Result<Version, Error>)
      modifies this, clock
      ensures r.Ok? <==> StampAfter(old(clock.last), VersionOf(old(rows), key), wall) < TWO_64
      ensures r.Ok? ==> r.value == StampAfter(old(clock.last), VersionOf(old(rows), key), wall)
      ensures r.Ok? ==> rows == old(rows)[key := Row(r.value, columns)]
      ensures r.Ok? ==> clock.last == r.value > old(clock.last)
      ensures r.Ok? && key in old(rows) ==> r.value > old(rows)[key].version
      ensures r.Err? ==> rows == old(rows) && r.error == ClockPanicked
    {
      if key in rows {
        clock.Adopt(rows[key].version);
      }
      NextIsMax(clock.last, wall);
      var version := clock.NextVersion(wall);
      if version.None? {
        return Err(ClockPanicked);
      }
      rows := rows[key := Row(version.value, columns)];
      r := Ok(version.value);
    }

    /** A delete's version outranks the row it removes; deleting nothing still takes a version. */
    method DeleteRow(key: Key, wall: int) returns (r: Result<Version, Error>)
      modifies this, clock
      ensures r == Err(ClockPanicked) <==> StampAfter(old(clock.last), VersionOf(old(rows), key), wall) >= TWO_64
      ensures r != Err(ClockPanicked) ==> clock.last == StampAfter(old(clock.last), VersionOf(old(rows), key), wall)
      ensures r != Err(ClockPanicked) ==> (r.Ok? <==> key in old(rows)) && (r.Ok? ==> r.value == clock.last)
      ensures rows == if r.Err? && r.error == ClockPanicked then old(rows) else old(rows) - {key}
      ensures r.Ok? ==> key in old(rows) && r.value > old(rows)[key].version && clock.last == r.value > old(clock.last)
      ensures r.Err? ==> r.error == ClockPanicked || (r.error == NotFound && key !in old(rows))
      ensures r == Err(NotFound) ==> clock.last > old(clock.last)
    {
      if key in rows {
        clock.Adopt(rows[key].version);
      }
      NextIsMax(clock.last, wall);
      var version := clock.NextVersion(wall);
      if version.None? {
        return Err(ClockPanicked);
      }
      var found := key in rows;
      rows := rows - {key};
      r := if found then Ok(version.value) else Err(NotFound);
    }

    /** resolveAffected: every locked row's version is folded into the clock. */
    method ResolveAffected(locked: seq<Key>) returns (keys: seq<Key>)
      requires forall i :: 0 <= i < |locked| ==> locked[i] in rows
      modifies clock
      ensures keys == locked && clock.last == Max(old(clock.last), HighestOf(rows, locked))
      ensures forall i :: 0 <= i < |locked| ==> rows[locked[i]].version <= clock.last
    {
      keys := [];
      for i := 0 to |locked|
        invariant keys == locked[..i] && clock.last == Max(old(clock.last), HighestOf(rows, locked[..i]))
        invariant forall j :: 0 <= j < i ==> rows[locked[j]].version <= clock.last
      {
        assert locked[..i + 1][..i] == locked[..i];
        clock.Adopt(rows[locked[i]].version);
        keys := keys + [locked[i]];
      }
      assert locked[..|locked|] == locked;
    }

    /**
     `locked` is what the resolving SELECT answered inside the transaction, and `meanwhile` the table other
     transactions have left by the time it writes.
     */
    method UpdateWhere(match': map<string, Value>, set': map<string, Value>, maxAffected: int,
                       locked: seq<Key>, meanwhile: map<Key, Row>, wall: int) returns (r: Result<UpdateResult, Error>)
      requires LockedAnswer(rows, match', maxAffected, locked) && Pinned(rows, meanwhile, locked)
      modifies this, clock
      ensures r.Ok? ==> maxAffected > 0 && UpdateDone(old(rows), meanwhile, rows, match', set', maxAffected, r.value)
      ensures r.Ok? ==> clock.last == r.value.version > old(clock.last)
      ensures r.Ok? <==> maxAffected > 0 && StampAfter(old(clock.last), HighestOf(old(rows), locked), wall) < TWO_64
      ensures r.Ok? ==> r.value.version == StampAfter(old(clock.last), HighestOf(old(rows), locked), wall)
      ensures maxAffected <= 0 ==> r == Err(InvalidBudget) && rows == old(rows) && clock.last == old(clock.last)
      ensures maxAffected > 0 && r.Err? ==> r.error == ClockPanicked && rows == meanwhile
    {
      if maxAffected <= 0 {
        return Err(InvalidBudget);
      }
      LockedIsExact(rows, match', maxAffected, locked);
      var keys := ResolveAffected(locked);
      var degraded := |keys| > maxAffected;
      rows := meanwhile;
      NextIsMax(clock.last, wall);
      var version := clock.NextVersion(wall);
      if version.None? {
        return Err(ClockPanicked);
      }
      if degraded {
        // By the predicate: every row that matches now, listed or not.
        var hit := Matching(rows, match');
        rows := Written(rows, hit, set', version.value);
        r := Ok(UpdateResult(version.value, |hit|, [], true));
      } else {
        // By the resolved keys, so the rows written are exactly the rows locked.
        DistinctSize(keys);
        rows := Written(rows, (set k | k in keys), set', version.value);
        r := Ok(UpdateResult(version.value, |keys|, keys, false));
      }
    }
  }

  // ---- lining arguments up with the declared statement ----

  /** Exactly one of the given values names the column, and it is at i. */
  ghost predicate OnlyAt(given: seq<ColumnValue>, name: string, i: int) {
    && 0 <= i < |given| && given[i].column == name
    && forall j :: 0 <= j < |given| && j != i ==> given[j].column != name
  }

  ghost predicate GivenOnce(given: seq<ColumnValue>, name: string) { exists i :: OnlyAt(given, name, i) }

  /** argsInDeclaredOrder: request order never decides which column a value is compared with. */
  method ArgsInDeclaredOrder(declared: seq<string>, given: seq<ColumnValue>) returns (r: Result<seq<Value>, Error>)
    ensures r.Ok? <==> forall d :: 0 <= d < |declared| ==> GivenOnce(given, declared[d])
    ensures r.Ok? ==> |r.value| == |declared|
    ensures r.Ok? ==> forall d, i :: 0 <= d < |declared| && OnlyAt(given, declared[d], i) ==> r.value[d] == given[i].value
    ensures r.Err? ==> r.error == InvalidPredicate
  {
    var out: seq<Value> := [];
    for d := 0 to |declared|
      invariant |out| == d
      invariant forall e :: 0 <= e < d ==> GivenOnce(given, declared[e])
      invariant forall e, i :: 0 <= e < d && OnlyAt(given, declared[e], i) ==> out[e] == given[i].value
    {
      var name := declared[d];
      var found := -1;
      for g := 0 to |given|
        invariant -1 <= found < g
        invariant found >= 0 ==> given[found].column == name
        invariant forall j :: 0 <= j < g && j != found ==> given[j].column != name
      {
        if given[g].column == name {
          if found >= 0 {
            assert !GivenOnce(given, declared[d]);
            return Err(InvalidPredicate);
          }
          found := g;
        }
      }
      if found < 0 {
        assert !GivenOnce(given, declared[d]);
        return Err(InvalidPredicate);
      }
      assert OnlyAt(given, name, found);
      out := out + [given[found].value];
    }
    r := Ok(out);
  }
}
