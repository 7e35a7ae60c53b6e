/**
 A conditional write across every shard of a table (internal/engine/rows.go, UpdateRowsWhere): which rows
 it writes, which keys it reports, which it tombstones and at what version, and what the session token
 learns.
 */
module Engine {
  import opened Common
  import opened Hlc
  import opened Storage

  datatype Outcome = Outcome(matched: nat, affected: seq<Key>, degraded: bool, newest: Version)

  datatype Tombstone = Tombstone(key: Key, version: Version)

  // ---- what the shards' results add up to ----

  function AnyDegraded(rs: seq<UpdateResult>): bool {
    rs != [] && (AnyDegraded(rs[..|rs| - 1]) || rs[|rs| - 1].degraded)
  }

  function TotalMatched(rs: seq<UpdateResult>): nat {
    if rs == [] then 0 else TotalMatched(rs[..|rs| - 1]) + rs[|rs| - 1].matched
  }

  function At(keys: seq<Key>, v: Version): seq<Tombstone> { seq(|keys|, i requires 0 <= i < |keys| => Tombstone(keys[i], v)) }

  /** The tombstones sent, in order: every key of every shard that stayed within budget. */
  function Sent(rs: seq<UpdateResult>): seq<Tombstone> {
    if rs == [] then [] else Sent(rs[..|rs| - 1]) + At(rs[|rs| - 1].affected, rs[|rs| - 1].version)
  }

  function Listed(rs: seq<UpdateResult>): seq<Key> {
    if rs == [] then [] else Listed(rs[..|rs| - 1]) + rs[|rs| - 1].affected
  }

  /** Each shard did its part, on its rows at lock time, at write time and afterwards. */
  ghost predicate AllDone(atLock: seq<map<Key, Row>>, atWrite: seq<map<Key, Row>>, after: seq<map<Key, Row>>,
                          match': map<string, Value>, set': map<string, Value>, budget: int, rs: seq<UpdateResult>)
  {
    && |atLock| == |atWrite| == |after| == |rs|
    && forall i :: 0 <= i < |rs| ==> UpdateDone(atLock[i], atWrite[i], after[i], match', set', budget, rs[i])
  }

  lemma {:induction false} SentByShard(rs: seq<UpdateResult>, t: Tombstone)
    ensures t in Sent(rs) <==> exists i :: 0 <= i < |rs| && t.version == rs[i].version && t.key in rs[i].affected
  {
    if rs != [] {
      var init, last := rs[..|rs| - 1], rs[|rs| - 1];
      SentByShard(init, t);
      AtHolds(last.affected, last.version, t);
      assert forall i :: 0 <= i < |init| ==> init[i] == rs[i];
    }
  }

  lemma {:induction false} ListedByShard(rs: seq<UpdateResult>, k: Key)
    ensures k in Listed(rs) <==> exists i :: 0 <= i < |rs| && k in rs[i].affected
  {
    if rs != [] {
      ListedByShard(rs[..|rs| - 1], k);
      assert forall i :: 0 <= i < |rs| - 1 ==> rs[..|rs| - 1][i] == rs[i];
    }
  }

  lemma AtHolds(keys: seq<Key>, v: Version, t: Tombstone)
    ensures t in At(keys, v) <==> t.version == v && t.key in keys
  {
    if t.version == v && t.key in keys {
      var i :| 0 <= i < |keys| && keys[i] == t.key;
      assert At(keys, v)[i] == t;
    }
  }

  /**
   Exactness. When no shard is degraded, a key is reported exactly when its row matched at lock time on
   some shard, and a tombstone is sent exactly for those keys, each at the version its shard stamped. Those
   are also the rows written: whatever other transactions did since, a row that only came to match later is
   left as they left it, and no row that matched has changed.
   */
  lemma ExactWhenNotDegraded(atLock: seq<map<Key, Row>>, atWrite: seq<map<Key, Row>>, after: seq<map<Key, Row>>,
                             match': map<string, Value>, set': map<string, Value>, budget: int, rs: seq<UpdateResult>,
                             k: Key, v: Version)
    requires AllDone(atLock, atWrite, after, match', set', budget, rs) && !AnyDegraded(rs)
    ensures k in Listed(rs) <==> exists i :: 0 <= i < |rs| && k in Matching(atLock[i], match')
    ensures Tombstone(k, v) in Sent(rs) <==>
              exists i :: 0 <= i < |rs| && k in Matching(atLock[i], match') && v == rs[i].version
    ensures forall i :: 0 <= i < |rs| && k in Matching(atLock[i], match') ==>
              k in after[i] && after[i][k] == Assigned(atLock[i][k], set', rs[i].version) && rs[i].version > atLock[i][k].version
    ensures forall i :: 0 <= i < |rs| && k in atWrite[i] && k !in Matching(atLock[i], match') ==>
              k in after[i] && after[i][k] == atWrite[i][k]
    ensures forall i :: 0 <= i < |rs| && k !in atWrite[i] ==> k !in after[i]
  {
    NoneDegraded(rs);
    forall i | 0 <= i < |rs|
      ensures k in rs[i].affected <==> k in Matching(atLock[i], match')
    {
      assert UpdateDone(atLock[i], atWrite[i], after[i], match', set', budget, rs[i]);
      assert k in rs[i].affected <==> k in Elements(rs[i].affected);
    }
    SentByShard(rs, Tombstone(k, v));
    ListedByShard(rs, k);
    forall i | 0 <= i < |rs|
      ensures k in after[i] <==> k in atWrite[i]
      ensures k in Matching(atLock[i], match') ==>
                && k in atWrite[i] && after[i][k] == Assigned(atLock[i][k], set', rs[i].version)
                && rs[i].version > atLock[i][k].version
      ensures k in atWrite[i] && k !in Matching(atLock[i], match') ==> after[i][k] == atWrite[i][k]
    {
      assert UpdateDone(atLock[i], atWrite[i], after[i], match', set', budget, rs[i]);
    }
  }

  /** Over budget on a shard, every row that matches as it writes is written, and nothing is listed. */
  lemma DegradedStillWrites(atLock: seq<map<Key, Row>>, atWrite: seq<map<Key, Row>>, after: seq<map<Key, Row>>,
                            match': map<string, Value>, set': map<string, Value>, budget: int, rs: seq<UpdateResult>,
                            i: nat, k: Key)
    requires AllDone(atLock, atWrite, after, match', set', budget, rs) && i < |rs| && k in atWrite[i]
    ensures rs[i].degraded <==> |Matching(atLock[i], match')| > budget
    ensures rs[i].degraded ==>
              && rs[i].affected == [] && k in after[i]
              && after[i][k] == if Matches(atWrite[i][k], match') then Assigned(atWrite[i][k], set', rs[i].version) else atWrite[i][k]
  {
    assert UpdateDone(atLock[i], atWrite[i], after[i], match', set', budget, rs[i]);
  }

  /** The rows one shard wrote: those it had locked within budget, those matching as it wrote over it. */
  function RowsWritten(atLock: map<Key, Row>, atWrite: map<Key, Row>, match': map<string, Value>, degraded: bool): set<Key> {
    Matching(if degraded then atWrite else atLock, match')
  }

  function CountRows(sets: seq<set<Key>>): nat {
    if sets == [] then 0 else CountRows(sets[..|sets| - 1]) + |sets[|sets| - 1]|
  }

  lemma {:induction false} CountsAgree(rs: seq<UpdateResult>, sets: seq<set<Key>>)
    requires |rs| == |sets| && forall i :: 0 <= i < |rs| ==> rs[i].matched == |sets[i]|
    ensures TotalMatched(rs) == CountRows(sets)
  {
    if rs != [] {
      CountsAgree(rs[..|rs| - 1], sets[..|sets| - 1]);
    }
  }

  /** The total reported is the number of rows written across the shards, each holding the assignment afterwards. */
  lemma TotalIsRowsWritten(atLock: seq<map<Key, Row>>, atWrite: seq<map<Key, Row>>, after: seq<map<Key, Row>>,
                           match': map<string, Value>, set': map<string, Value>, budget: int,
                           rs: seq<UpdateResult>) returns (written: seq<set<Key>>)
    requires AllDone(atLock, atWrite, after, match', set', budget, rs)
    ensures |written| == |rs| && TotalMatched(rs) == CountRows(written)
    ensures forall i :: 0 <= i < |rs| ==> after[i] == Written(atWrite[i], written[i], set', rs[i].version) && written[i] <= atWrite[i].Keys
  {
    written := seq(|rs|, i requires 0 <= i < |rs| => RowsWritten(atLock[i], atWrite[i], match', rs[i].degraded));
    forall i | 0 <= i < |rs|
      ensures rs[i].matched == |written[i]| && written[i] <= atWrite[i].Keys
      ensures after[i] == Written(atWrite[i], written[i], set', rs[i].version)
    {
      assert UpdateDone(atLock[i], atWrite[i], after[i], match', set', budget, rs[i]);
    }
    CountsAgree(rs, written);
  }

  lemma {:induction false} NoneDegraded(rs: seq<UpdateResult>)
    ensures AnyDegraded(rs) <==> exists i :: 0 <= i < |rs| && rs[i].degraded
  {
    if rs != [] {
      NoneDegraded(rs[..|rs| - 1]);
      assert forall i :: 0 <= i < |rs| - 1 ==> rs[..|rs| - 1][i] == rs[i];
    }
  }

  // ---- the engine ----

  predicate Apart(shards: seq<Shard>) {
    && (forall i, j :: 0 <= i < j < |shards| ==> shards[i] != shards[j] && shards[i].clock != shards[j].clock)
  }

  function RowsOf(shards: seq<Shard>): (rs: seq<map<Key, Row>>)
    reads shards
    ensures |rs| == |shards|
  {
    seq(|shards|, i requires 0 <= i < |shards| reads shards => shards[i].rows)
  }

  /** token.Advance, on the watermarks the session holds. */
  function Advance(marks: map<ShardId, Version>, shard: ShardId, v: Version): map<ShardId, Version> {
    if shard in marks && marks[shard] >= v then marks else marks[shard := v]
  }

  /** What the loop has gathered after the shards `rs` answered. */
  ghost predicate Gathered(out: Outcome, sent: seq<Tombstone>, rs: seq<UpdateResult>) {
    && sent == Sent(rs) && out.degraded == AnyDegraded(rs) && out.matched == TotalMatched(rs)
    && (!out.degraded ==> out.affected == Listed(rs)) && IsNewest(out.newest, rs)
  }

  /** The highest version any shard stamped. */
  ghost predicate IsNewest(v: Version, rs: seq<UpdateResult>) {
    && (forall i :: 0 <= i < |rs| ==> rs[i].version <= v)
    && (if rs == [] then v == 0 else exists i :: 0 <= i < |rs| && rs[i].version == v)
  }

  /** One shard's answer folded in: a degraded shard reports and invalidates nothing. */
  function Fold(out: Outcome, res: UpdateResult): Outcome {
    Outcome(out.matched + res.matched,
            if res.degraded then out.affected else out.affected + res.affected,
            out.degraded || res.degraded,
            if res.version > out.newest then res.version else out.newest)
  }

  lemma FoldGathers(out: Outcome, sent: seq<Tombstone>, rs: seq<UpdateResult>, res: UpdateResult)
    requires Gathered(out, sent, rs) && (res.degraded ==> res.affected == [])
    ensures Gathered(Fold(out, res), if res.degraded then sent else sent + At(res.affected, res.version), rs + [res])
  {
    assert (rs + [res])[..|rs|] == rs;
    if res.degraded {
      assert At(res.affected, res.version) == [];
    }
    NewestFolds(out.newest, rs, res);
  }

  lemma NewestFolds(v: Version, rs: seq<UpdateResult>, res: UpdateResult)
    requires IsNewest(v, rs)
    ensures IsNewest(if res.version > v then res.version else v, rs + [res])
  {
    var rs' := rs + [res];
    assert rs'[|rs|] == res;
    if res.version <= v && rs != [] {
      var i :| 0 <= i < |rs| && rs[i].version == v;
      assert rs'[i].version == v;
    }
  }

  /** Every watermark the write advanced covers the version its shard stamped. */
  ghost predicate Covers(watermarks: map<ShardId, Version>, ids: seq<ShardId>, rs: seq<UpdateResult>) {
    |rs| <= |ids| && forall i :: 0 <= i < |rs| ==> ids[i] in watermarks && watermarks[ids[i]] >= rs[i].version
  }

  /** And nothing else moved: a watermark is the session's own, or a version stamped on that very shard. */
  ghost predicate Earned(token: map<ShardId, Version>, marks: map<ShardId, Version>, ids: seq<ShardId>, rs: seq<UpdateResult>) {
    |rs| <= |ids| && forall s <- marks ::
      (s in token && marks[s] == token[s]) || exists i :: 0 <= i < |rs| && ids[i] == s && marks[s] == rs[i].version
  }

  lemma AdvanceEarns(token: map<ShardId, Version>, marks: map<ShardId, Version>, ids: seq<ShardId>,
                     rs: seq<UpdateResult>, res: UpdateResult)
    requires Earned(token, marks, ids, rs) && |rs| < |ids|
    ensures Earned(token, Advance(marks, ids[|rs|], res.version), ids, rs + [res])
  {
    var marks', rs' := Advance(marks, ids[|rs|], res.version), rs + [res];
    forall s | s in marks'
      ensures (s in token && marks'[s] == token[s]) || exists i :: 0 <= i < |rs'| && ids[i] == s && marks'[s] == rs'[i].version
    {
      if s in marks && marks'[s] == marks[s] {
        if !(s in token && marks[s] == token[s]) {
          var i :| 0 <= i < |rs| && ids[i] == s && marks[s] == rs[i].version;
          assert rs'[i] == rs[i];
        }
      } else {
        assert rs'[|rs|] == res;
      }
    }
  }

  ghost predicate Grew(old': map<ShardId, Version>, new': map<ShardId, Version>) {
    forall i <- old' :: i in new' && new'[i] >= old'[i]
  }

  lemma AdvanceCovers(token: map<ShardId, Version>, marks: map<ShardId, Version>, ids: seq<ShardId>,
                      rs: seq<UpdateResult>, res: UpdateResult)
    requires Grew(token, marks) && Covers(marks, ids, rs) && |rs| < |ids|
    ensures var marks' := Advance(marks, ids[|rs|], res.version);
            Grew(token, marks') && Covers(marks', ids, rs + [res])
  {
    var marks' := Advance(marks, ids[|rs|], res.version);
    assert forall s <- marks :: s in marks' && marks'[s] >= marks[s];
    forall i | 0 <= i < |rs + [res]| ensures ids[i] in marks' && marks'[ids[i]] >= (rs + [res])[i].version {
      if i < |rs| { assert marks[ids[i]] >= rs[i].version; }
    }
  }

  /** What the session token learned: every shard's version is covered, nothing is lost and nothing invented. */
  ghost predicate Learned(token: map<ShardId, Version>, marks: map<ShardId, Version>, ids: seq<ShardId>, rs: seq<UpdateResult>) {
    Covers(marks, ids, rs) && Grew(token, marks) && Earned(token, marks, ids, rs)
  }

  lemma AdvanceLearns(token: map<ShardId, Version>, marks: map<ShardId, Version>, ids: seq<ShardId>,
                      rs: seq<UpdateResult>, res: UpdateResult)
    requires Learned(token, marks, ids, rs) && |rs| < |ids|
    ensures Learned(token, Advance(marks, ids[|rs|], res.version), ids, rs + [res])
  {
    AdvanceCovers(token, marks, ids, rs, res);
    AdvanceEarns(token, marks, ids, rs, res);
  }

  /** Shard i has room for its version: the only way a write within a positive budget can fail. */
  ghost predicate HasRoom(last: Version, rows: map<Key, Row>, answer: seq<Key>, wall: int) {
    StampAfter(last, HighestOf(rows, answer), wall) < TWO_64
  }

  ghost predicate AllHaveRoom(budget: int, lasts: seq<Version>, before: seq<map<Key, Row>>, answers: seq<seq<Key>>,
                              walls: seq<int>, n: nat)
  {
    && n <= |lasts| == |before| == |answers| == |walls| && (n > 0 ==> budget > 0)
    && forall i :: 0 <= i < n ==> HasRoom(lasts[i], before[i], answers[i], walls[i])
  }

  lemma NoRoom(budget: int, w: Inputs, n: nat, m: nat)
    requires n < m && Shaped(w, m) && !(budget > 0 && HasRoom(w.lasts[n], w.before[n], w.answers[n], w.walls[n]))
    ensures !AllHaveRoom(budget, w.lasts, w.before, w.answers, w.walls, m)
  {
  }

  function LastsOf(shards: seq<Shard>): (vs: seq<Version>)
    reads shards, set i | 0 <= i < |shards| :: shards[i].clock
    ensures |vs| == |shards|
  {
    seq(|shards|, i requires 0 <= i < |shards| reads shards, set i | 0 <= i < |shards| :: shards[i].clock => shards[i].clock.last)
  }

  /** Each answered shard stamped the version its clock, its locked rows and its wall clock give. */
  ghost predicate Stamped(lasts: seq<Version>, before: seq<map<Key, Row>>, answers: seq<seq<Key>>, walls: seq<int>,
                          rs: seq<UpdateResult>)
  {
    && |rs| <= |lasts| == |before| == |answers| == |walls|
    && forall i :: 0 <= i < |rs| ==> rs[i].version == StampAfter(lasts[i], HighestOf(before[i], answers[i]), walls[i])
  }

  ghost predicate Untouched(shards: seq<Shard>, lasts: seq<Version>, n: nat)
    reads shards, set i | 0 <= i < |shards| :: shards[i].clock
  {
    |lasts| == |shards| && forall i :: n <= i < |shards| ==> shards[i].clock.last == lasts[i]
  }

  ghost predicate Rest(shards: seq<Shard>, before: seq<map<Key, Row>>, n: nat)
    reads shards
  {
    |before| == |shards| && forall i :: n <= i < |shards| ==> shards[i].rows == before[i]
  }

  ghost predicate DoneUpTo(shards: seq<Shard>, before: seq<map<Key, Row>>, meanwhile: seq<map<Key, Row>>,
                           match': map<string, Value>, set': map<string, Value>, budget: int, rs: seq<UpdateResult>)
    reads shards
  {
    && |rs| <= |shards| == |before| == |meanwhile|
    && forall i :: 0 <= i < |rs| ==> UpdateDone(before[i], meanwhile[i], shards[i].rows, match', set', budget, rs[i])
  }

  lemma DoneIsAllDone(shards: seq<Shard>, before: seq<map<Key, Row>>, meanwhile: seq<map<Key, Row>>,
                      match': map<string, Value>, set': map<string, Value>, budget: int, rs: seq<UpdateResult>)
    requires DoneUpTo(shards, before, meanwhile, match', set', budget, rs) && |rs| == |shards|
    ensures AllDone(before, meanwhile, RowsOf(shards), match', set', budget, rs)
  {
  }

  /** What each shard is asked with: its clock and rows as the write began, its SELECT's answer, its wall clock. */
  datatype Inputs = Inputs(lasts: seq<Version>, before: seq<map<Key, Row>>, meanwhile: seq<map<Key, Row>>,
                           answers: seq<seq<Key>>, walls: seq<int>)

  predicate Shaped(w: Inputs, size: nat) {
    |w.lasts| == |w.before| == |w.meanwhile| == |w.answers| == |w.walls| == size
  }

  /** The shards after the first |rs| of them answered. */
  ghost predicate Applied(shards: seq<Shard>, w: Inputs, match': map<string, Value>, set': map<string, Value>, budget: int,
                           rs: seq<UpdateResult>)
    reads shards, set i | 0 <= i < |shards| :: shards[i].clock
  {
    DoneUpTo(shards, w.before, w.meanwhile, match', set', budget, rs) && Rest(shards, w.before, |rs|) && Untouched(shards, w.lasts, |rs|)
  }

  /** Everything the loop has gathered from those answers. */
  ghost predicate Tallied(out: Outcome, sent: seq<Tombstone>, token: map<ShardId, Version>, marks: map<ShardId, Version>,
                          ids: seq<ShardId>, w: Inputs, budget: int, rs: seq<UpdateResult>)
  {
    && Gathered(out, sent, rs) && Learned(token, marks, ids, rs)
    && Stamped(w.lasts, w.before, w.answers, w.walls, rs) && AllHaveRoom(budget, w.lasts, w.before, w.answers, w.walls, |rs|)
  }

  lemma TallyOne(out: Outcome, sent: seq<Tombstone>, token: map<ShardId, Version>, marks: map<ShardId, Version>,
                 ids: seq<ShardId>, w: Inputs, budget: int, rs: seq<UpdateResult>, res: UpdateResult)
    requires Tallied(out, sent, token, marks, ids, w, budget, rs) && |rs| < |ids| && Shaped(w, |ids|)
    requires res.degraded ==> res.affected == []
    requires budget > 0 && HasRoom(w.lasts[|rs|], w.before[|rs|], w.answers[|rs|], w.walls[|rs|])
    requires res.version == StampAfter(w.lasts[|rs|], HighestOf(w.before[|rs|], w.answers[|rs|]), w.walls[|rs|])
    ensures Tallied(Fold(out, res), if res.degraded then sent else sent + At(res.affected, res.version), token,
                    Advance(marks, ids[|rs|], res.version), ids, w, budget, rs + [res])
  {
    FoldGathers(out, sent, rs, res);
    AdvanceLearns(token, marks, ids, rs, res);
    StampOne(w, budget, rs, res);
  }

  lemma StampOne(w: Inputs, budget: int, rs: seq<UpdateResult>, res: UpdateResult)
    requires Stamped(w.lasts, w.before, w.answers, w.walls, rs) && AllHaveRoom(budget, w.lasts, w.before, w.answers, w.walls, |rs|)
    requires |rs| < |w.lasts| && budget > 0 && HasRoom(w.lasts[|rs|], w.before[|rs|], w.answers[|rs|], w.walls[|rs|])
    requires res.version == StampAfter(w.lasts[|rs|], HighestOf(w.before[|rs|], w.answers[|rs|]), w.walls[|rs|])
    ensures Stamped(w.lasts, w.before, w.answers, w.walls, rs + [res])
    ensures AllHaveRoom(budget, w.lasts, w.before, w.answers, w.walls, |rs + [res]|)
  {
  }

  /**
   `w` holds what each shard's clock and locking SELECT answer, and what other transactions have made of its table
   by the time it writes. The write succeeds exactly when the budget is positive and every clock has room. On
   success every shard did its part, the outcome adds the shards up, and the token covers every shard's version,
   degraded or not. On failure the shards before the failing one have committed, the failing one holds nothing of
   this write, and the rest are untouched.
   */
  method UpdateRowsWhere(ids: seq<ShardId>, shards: seq<Shard>, token: map<ShardId, Version>,
                         match': map<string, Value>, set': map<string, Value>, maxAffected: int, w: Inputs)
    returns (r: Result<Outcome, Error>, marks: map<ShardId, Version>, sent: seq<Tombstone>, rs: seq<UpdateResult>)
    requires |ids| == |shards| && Shaped(w, |shards|) && Apart(shards)
    requires w.before == RowsOf(shards) && w.lasts == LastsOf(shards)
    requires forall i :: 0 <= i < |shards| ==>
               LockedAnswer(w.before[i], match', maxAffected, w.answers[i]) && Pinned(w.before[i], w.meanwhile[i], w.answers[i])
    modifies shards, set i | 0 <= i < |shards| :: shards[i].clock
    ensures |rs| <= |shards| && (r.Ok? <==> |rs| == |shards|)
    ensures r.Ok? <==> AllHaveRoom(maxAffected, w.lasts, w.before, w.answers, w.walls, |shards|)
    ensures DoneUpTo(shards, w.before, w.meanwhile, match', set', maxAffected, rs)
    ensures Stamped(w.lasts, w.before, w.answers, w.walls, rs) && Rest(shards, w.before, |rs| + 1)
    ensures r.Err? ==> shards[|rs|].rows == w.before[|rs|] || shards[|rs|].rows == w.meanwhile[|rs|]
    ensures sent == Sent(rs) && Learned(token, marks, ids, rs)
    ensures r.Ok? ==>
              && AllDone(w.before, w.meanwhile, RowsOf(shards), match', set', maxAffected, rs)
              && r.value.degraded == AnyDegraded(rs)
              && r.value.matched == TotalMatched(rs)
              && r.value.affected == (if AnyDegraded(rs) then [] else Listed(rs))
              && IsNewest(r.value.newest, rs)
  {
    var out := Outcome(0, [], false, 0);
    marks, sent, rs := token, [], [];
    for n := 0 to |shards|
      invariant |rs| == n && Tallied(out, sent, token, marks, ids, w, maxAffected, rs)
      invariant Applied(shards, w, match', set', maxAffected, rs)
    {
      var res := ShardWrite(shards, n, w, match', set', maxAffected, rs);
      if res.Err? {
        NoRoom(maxAffected, w, n, |shards|);
        return Err(res.error), marks, sent, rs;
      }
      TallyOne(out, sent, token, marks, ids, w, maxAffected, rs, res.value);
      marks := Advance(marks, ids[n], res.value.version);
      if !res.value.degraded {
        sent := sent + At(res.value.affected, res.value.version);
      }
      out := Fold(out, res.value);
      rs := rs + [res.value];
    }
    DoneIsAllDone(shards, w.before, w.meanwhile, match', set', maxAffected, rs);
    if out.degraded {
      // Reported empty, never partial.
      out := out.(affected := []);
    }
    r := Ok(out);
  }

  /** One shard's transaction leaves the others as they were. */
  method ShardWrite(shards: seq<Shard>, n: nat, w: Inputs, match': map<string, Value>, set': map<string, Value>,
                    maxAffected: int, ghost rs: seq<UpdateResult>)
    returns (res: Result<UpdateResult, Error>)
    requires n < |shards| && |rs| == n && Shaped(w, |shards|) && Apart(shards)
    requires Applied(shards, w, match', set', maxAffected, rs)
    requires LockedAnswer(w.before[n], match', maxAffected, w.answers[n]) && Pinned(w.before[n], w.meanwhile[n], w.answers[n])
    modifies shards[n], shards[n].clock
    ensures res.Ok? <==> maxAffected > 0 && HasRoom(w.lasts[n], w.before[n], w.answers[n], w.walls[n])
    ensures res.Err? ==>
              && DoneUpTo(shards, w.before, w.meanwhile, match', set', maxAffected, rs) && Rest(shards, w.before, n + 1)
              && (shards[n].rows == w.before[n] || shards[n].rows == w.meanwhile[n])
    ensures res.Ok? ==> Applied(shards, w, match', set', maxAffected, rs + [res.value])
    ensures res.Ok? ==> res.value.version == StampAfter(w.lasts[n], HighestOf(w.before[n], w.answers[n]), w.walls[n])
    ensures res.Ok? ==> (res.value.degraded ==> res.value.affected == [])
  {
    assert forall i :: 0 <= i < |shards| && i != n ==> shards[i] != shards[n] && shards[i].clock != shards[n].clock;
    assert shards[n].rows == w.before[n] && shards[n].clock.last == w.lasts[n];
    res := shards[n].UpdateWhere(match', set', maxAffected, w.answers[n], w.meanwhile[n], w.walls[n]);
  }
}
