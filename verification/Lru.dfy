/**
 Recency lists bounded in length: what the session token, the tracer and the admission controller all keep.

 The list is compared with the log of uses: the bounded list is always the front of the unbounded one, which
 orders every key ever used by its last use.
 */
module Lru {
  import opened Common

  datatype Use<E> = Use(key: string, item: E)

  /** The list less its first occurrence of k. */
  function Without(order: seq<string>, k: string): seq<string> {
    if order == [] then []
    else if order[0] == k then order[1..]
    else [order[0]] + Without(order[1..], k)
  }

  /** One use: to the front if held, otherwise in at the front, pushing the oldest out of a full list. */
  function Touch(order: seq<string>, bound: nat, k: string): seq<string> {
    if k in order then [k] + Without(order, k)
    else if |order| >= bound && order != [] then [k] + order[..|order| - 1]
    else [k] + order
  }

  function Order<E>(log: seq<Use<E>>, bound: nat): seq<string> {
    if log == [] then [] else Touch(Order(log[..|log| - 1], bound), bound, log[|log| - 1].key)
  }

  /** Every key used, most recent first. */
  function Recent<E>(log: seq<Use<E>>): seq<string> {
    if log == [] then [] else [log[|log| - 1].key] + Without(Recent(log[..|log| - 1]), log[|log| - 1].key)
  }

  /** When k was last used, counting from one; zero if never. */
  function LastUse<E>(log: seq<Use<E>>, k: string): (n: nat)
    ensures n <= |log|
  {
    if log == [] then 0 else if log[|log| - 1].key == k then |log| else LastUse(log[..|log| - 1], k)
  }

  lemma {:induction false} LastUseIsLast<E>(log: seq<Use<E>>, k: string)
    ensures var n := LastUse(log, k); n > 0 ==> log[n - 1].key == k
    ensures forall i :: LastUse(log, k) <= i < |log| ==> log[i].key != k
  {
    if log != [] && log[|log| - 1].key != k {
      LastUseIsLast(log[..|log| - 1], k);
    }
  }

  ghost predicate ByLastUse<E>(log: seq<Use<E>>, order: seq<string>) {
    forall i, j :: 0 <= i < j < |order| ==> LastUse(log, order[i]) > LastUse(log, order[j])
  }

  ghost predicate Distinct(order: seq<string>) {
    forall i, j :: 0 <= i < j < |order| ==> order[i] != order[j]
  }

  lemma {:induction false} WithoutKeeps(order: seq<string>, k: string)
    requires Distinct(order)
    ensures Distinct(Without(order, k))
    ensures forall x :: x in Without(order, k) <==> x in order && x != k
    ensures |Without(order, k)| == |order| - (if k in order then 1 else 0)
  {
    if order != [] && order[0] != k {
      WithoutKeeps(order[1..], k);
      var rest := Without(order[1..], k);
      forall i, j | 0 <= i < j < |rest| + 1
        ensures ([order[0]] + rest)[i] != ([order[0]] + rest)[j]
      {
        assert rest[j - 1] in order[1..];
      }
    }
  }

  /** Removing k from a list and then cutting it is cutting it and then removing k. */
  lemma {:induction false} WithoutCut(order: seq<string>, n: nat, k: string)
    requires n <= |order|
    ensures k in order[..n] ==> |Without(order, k)| >= n - 1 && Without(order[..n], k) == Without(order, k)[..n - 1]
    ensures k !in order[..n] ==> |Without(order, k)| >= n - 1
    ensures k !in order[..n] && n > 0 ==> order[..n - 1] == Without(order, k)[..n - 1]
    ensures k !in order ==> Without(order, k) == order
  {
    if n > 0 && order[0] != k {
      WithoutCut(order[1..], n - 1, k);
      assert order[..n][1..] == order[1..][..n - 1];
    } else if n == 0 && order != [] && order[0] != k {
      WithoutCut(order[1..], 0, k);
    }
  }

  /** The unbounded list: every key of the log once, by falling last use. */
  lemma {:induction false} RecentByLastUse<E>(log: seq<Use<E>>)
    ensures Distinct(Recent(log))
    ensures forall k :: k in Recent(log) <==> LastUse(log, k) > 0
    ensures ByLastUse(log, Recent(log))
  {
    if log != [] {
      var init, k := log[..|log| - 1], log[|log| - 1].key;
      RecentByLastUse(init);
      WithoutKeeps(Recent(init), k);
      WithoutSorted(init, Recent(init), k);
      NewestFirst(log, Without(Recent(init), k));
    }
  }

  /** The key just used, in front of others by their last use, keeps the order. */
  lemma NewestFirst<E>(log: seq<Use<E>>, rest: seq<string>)
    requires log != [] && log[|log| - 1].key !in rest && ByLastUse(log[..|log| - 1], rest)
    ensures ByLastUse(log, [log[|log| - 1].key] + rest)
  {
    forall i | 0 <= i < |rest| ensures LastUse(log, rest[i]) == LastUse(log[..|log| - 1], rest[i]) < |log| {
      assert rest[i] in rest;
    }
  }

  lemma {:induction false} WithoutSorted<E>(log: seq<Use<E>>, order: seq<string>, k: string)
    requires ByLastUse(log, order)
    ensures ByLastUse(log, Without(order, k))
    ensures forall x :: x in Without(order, k) ==> x in order
    decreases order
  {
    if order != [] && order[0] != k {
      WithoutSorted(log, order[1..], k);
      SortedFront(log, order, Without(order[1..], k));
    }
  }

  /** The first of a sorted list, before some of the others in order, is sorted. */
  lemma SortedFront<E>(log: seq<Use<E>>, order: seq<string>, rest: seq<string>)
    requires order != [] && ByLastUse(log, order) && ByLastUse(log, rest) && forall x :: x in rest ==> x in order[1..]
    ensures ByLastUse(log, [order[0]] + rest)
  {
    forall j | 0 <= j < |rest| ensures LastUse(log, order[0]) > LastUse(log, rest[j]) {
      assert rest[j] in order[1..];
      var q :| 0 <= q < |order[1..]| && order[1..][q] == rest[j];
      assert order[q + 1] == rest[j];
    }
  }

  /** The bounded list is the front of the unbounded one: the `bound` most recently used distinct keys. */
  lemma {:induction false} OrderIsMostRecent<E>(log: seq<Use<E>>, bound: nat)
    requires bound > 0
    ensures Order(log, bound) == Recent(log)[..Min(bound, |Recent(log)|)]
  {
    if log != [] {
      var init, k := log[..|log| - 1], log[|log| - 1].key;
      OrderIsMostRecent(init, bound);
      RecentByLastUse(init);
      TouchCut(Recent(init), bound, k);
    }
  }

  lemma TouchCut(all: seq<string>, bound: nat, k: string)
    requires bound > 0 && Distinct(all)
    ensures var moved := [k] + Without(all, k);
            Touch(all[..Min(bound, |all|)], bound, k) == moved[..Min(bound, |moved|)]
  {
    var m, moved := Min(bound, |all|), [k] + Without(all, k);
    WithoutKeeps(all, k);
    WithoutCut(all, m, k);
    if k in all[..m] {
      assert Min(bound, |moved|) == m;
      assert moved[..m] == [k] + Without(all, k)[..m - 1];
    } else if m == bound {
      assert moved[..m] == [k] + all[..m - 1];
      assert all[..m][..m - 1] == all[..m - 1];
    } else {
      assert all[..m] == all && moved == [k] + all;
    }
  }

  /** What bounded lists keep: no repeats, no more than the bound, only keys that were used, the newest first. */
  lemma OrderBasics<E>(log: seq<Use<E>>, bound: nat)
    requires bound > 0
    ensures Distinct(Order(log, bound)) && |Order(log, bound)| <= bound
    ensures forall k :: k in Order(log, bound) ==> LastUse(log, k) > 0
    ensures ByLastUse(log, Order(log, bound))
  {
    OrderIsMostRecent(log, bound);
    RecentByLastUse(log);
  }

  /** Within the bound nothing is ever pushed out. */
  lemma WithinBound<E>(log: seq<Use<E>>, bound: nat)
    requires bound > 0 && |Recent(log)| <= bound
    ensures Order(log, bound) == Recent(log)
  {
    OrderIsMostRecent(log, bound);
  }

  /** Uses of other keys since k's last one, fewer than the bound of them distinct: exactly then is k held. */
  lemma HeldIff<E>(log: seq<Use<E>>, bound: nat, k: string)
    requires bound > 0
    ensures k in Order(log, bound) <==> LastUse(log, k) > 0 && |UsedAfter(log, LastUse(log, k))| < bound
  {
    OrderIsMostRecent(log, bound);
    if LastUse(log, k) > 0 {
      var p := Place(log, k);
      InPrefix(Recent(log), p, Min(bound, |Recent(log)|));
    } else {
      RecentByLastUse(log);
    }
  }

  /** A used key's place in the unbounded list is the number of distinct keys used since. */
  lemma Place<E>(log: seq<Use<E>>, k: string) returns (p: nat)
    requires LastUse(log, k) > 0
    ensures p < |Recent(log)| && Recent(log)[p] == k && Distinct(Recent(log))
    ensures |UsedAfter(log, LastUse(log, k))| == p
  {
    RecentByLastUse(log);
    p :| p < |Recent(log)| && Recent(log)[p] == k;
    NewerKeys(log, k, p);
    DistinctSetSize(Recent(log)[..p]);
  }

  lemma InPrefix(all: seq<string>, p: nat, b: nat)
    requires Distinct(all) && p < |all| && b <= |all|
    ensures all[p] in all[..b] <==> p < b
  {
    if p < b {
      assert all[..b][p] == all[p];
    }
  }

  ghost function UsedAfter<E>(log: seq<Use<E>>, n: nat): set<string> {
    set i | n <= i < |log| :: log[i].key
  }

  /** The keys ahead of k in the unbounded list are those used since. */
  lemma NewerKeys<E>(log: seq<Use<E>>, k: string, p: nat)
    requires p < |Recent(log)| && Recent(log)[p] == k
    ensures UsedAfter(log, LastUse(log, k)) == set x | x in Recent(log)[..p]
  {
    forall x ensures x in UsedAfter(log, LastUse(log, k)) <==> x in Recent(log)[..p] {
      RecentByLastUse(log);
      AheadIffLater(log, Recent(log), p, x);
      UsedAfterIffLater(log, LastUse(log, k), x);
    }
  }

  lemma UsedAfterIffLater<E>(log: seq<Use<E>>, n: nat, x: string)
    ensures x in UsedAfter(log, n) <==> LastUse(log, x) > n
  {
    LastUseIsLast(log, x);
    if LastUse(log, x) > n {
      assert log[LastUse(log, x) - 1].key == x;
    }
  }

  lemma AheadIffLater<E>(log: seq<Use<E>>, all: seq<string>, p: nat, x: string)
    requires ByLastUse(log, all) && p < |all| && (x in all <==> LastUse(log, x) > 0)
    ensures x in all[..p] <==> LastUse(log, x) > LastUse(log, all[p])
  {
    if x in all {
      var q :| 0 <= q < |all| && all[q] == x;
      if q < p {
        assert all[..p][q] == x;
      }
    }
  }

  lemma {:induction false} DistinctSetSize(s: seq<string>)
    requires Distinct(s)
    ensures |set x | x in s| == |s|
  {
    if s != [] {
      var init, last := s[..|s| - 1], s[|s| - 1];
      DistinctSetSize(init);
      assert (set x | x in s) == (set x | x in init) + {last};
    }
  }

  // ---- what was recorded about a key since it last came in ----

  function ItemsOf<E>(log: seq<Use<E>>, k: string): seq<E> {
    if log == [] then []
    else ItemsOf(log[..|log| - 1], k) + (if log[|log| - 1].key == k then [log[|log| - 1].item] else [])
  }

  function Since<E>(log: seq<Use<E>>, bound: nat, k: string): seq<E> {
    if log == [] then []
    else
      var init, last := log[..|log| - 1], log[|log| - 1];
      if last.key != k then Since(init, bound, k)
      else if k in Order(init, bound) then Since(init, bound, k) + [last.item]
      else [last.item]
  }

  /** k was used at i while not held, and at no later point: its latest entry. */
  ghost predicate EntersAt<E>(log: seq<Use<E>>, bound: nat, k: string, i: nat) {
    && i < |log| && log[i].key == k && k !in Order(log[..i], bound)
    && forall j :: i < j < |log| && log[j].key == k ==> k in Order(log[..j], bound)
  }

  /** Since is the log from the latest entry on, for that key. */
  lemma {:induction false} SinceIsFromEntry<E>(log: seq<Use<E>>, bound: nat, k: string) returns (i: nat)
    requires bound > 0 && LastUse(log, k) > 0
    ensures EntersAt(log, bound, k, i) && Since(log, bound, k) == ItemsOf(log[i..], k)
  {
    var init, last := log[..|log| - 1], log[|log| - 1];
    if last.key == k && k !in Order(init, bound) {
      i := |init|;
      assert init + [last] == log;
      EntryNow(init, last, bound);
    } else {
      if last.key == k {
        OrderBasics(init, bound);
      }
      i := SinceIsFromEntry(init, bound, k);
      EntryStands(init, last, bound, k, i);
      assert init + [last] == log && log[i..] == init[i..] + [last];
      ItemsSnoc(init[i..], last, k);
    }
  }

  lemma ItemsSnoc<E>(log: seq<Use<E>>, u: Use<E>, k: string)
    ensures ItemsOf(log + [u], k) == ItemsOf(log, k) + (if u.key == k then [u.item] else [])
  {
    assert (log + [u])[..|log|] == log;
  }

  lemma EntryNow<E>(log: seq<Use<E>>, u: Use<E>, bound: nat)
    requires u.key !in Order(log, bound)
    ensures EntersAt(log + [u], bound, u.key, |log|)
    ensures Since(log + [u], bound, u.key) == ItemsOf((log + [u])[|log|..], u.key) == [u.item]
  {
    assert (log + [u])[..|log|] == log && (log + [u])[|log|..] == [u] && [u][..0] == [];
  }

  /** A use that does not bring k in leaves its latest entry where it was. */
  lemma EntryStands<E>(log: seq<Use<E>>, u: Use<E>, bound: nat, k: string, i: nat)
    requires EntersAt(log, bound, k, i) && (u.key == k ==> k in Order(log, bound))
    ensures EntersAt(log + [u], bound, k, i)
  {
    assert (log + [u])[..i] == log[..i];
    forall j | i < j < |log + [u]| && (log + [u])[j].key == k
      ensures k in Order((log + [u])[..j], bound)
    {
      assert (log + [u])[..j] == log[..j];
      if j == |log| {
        assert log[..j] == log;
      }
    }
  }

  lemma {:induction false} SinceNonEmpty<E>(log: seq<Use<E>>, bound: nat, k: string)
    requires LastUse(log, k) > 0
    ensures Since(log, bound, k) != []
  {
    if log[|log| - 1].key != k {
      SinceNonEmpty(log[..|log| - 1], bound, k);
    }
  }

  /** A log that never uses more distinct keys than the bound loses nothing about any of them. */
  lemma {:induction false} NothingLost<E>(log: seq<Use<E>>, bound: nat, k: string)
    requires bound > 0 && |Recent(log)| <= bound
    ensures k in Order(log, bound) <==> LastUse(log, k) > 0
    ensures Since(log, bound, k) == ItemsOf(log, k)
  {
    WithinBound(log, bound);
    RecentByLastUse(log);
    if log != [] {
      var init := log[..|log| - 1];
      RecentByLastUse(init);
      WithoutKeeps(Recent(init), log[|log| - 1].key);
      NothingLost(init, bound, k);
      if LastUse(init, k) == 0 {
        NeverUsed(init, k);
      }
    }
  }

  lemma {:induction false} NeverUsed<E>(log: seq<Use<E>>, k: string)
    requires LastUse(log, k) == 0
    ensures ItemsOf(log, k) == []
  {
    if log != [] {
      NeverUsed(log[..|log| - 1], k);
    }
  }

  /** Appending one use, in one step. */
  lemma Snoc<E>(log: seq<Use<E>>, bound: nat, u: Use<E>)
    ensures Order(log + [u], bound) == Touch(Order(log, bound), bound, u.key)
    ensures forall k :: Since(log + [u], bound, k)
              == if k != u.key then Since(log, bound, k)
                 else if k in Order(log, bound) then Since(log, bound, k) + [u.item] else [u.item]
    ensures forall k :: LastUse(log + [u], k) == if k == u.key then |log| + 1 else LastUse(log, k)
  {
    assert (log + [u])[..|log|] == log;
  }

  /** Which keys a use leaves in the list. */
  lemma TouchMembers(order: seq<string>, bound: nat, u: string, k: string)
    requires Distinct(order)
    ensures k in Touch(order, bound, u) <==>
              k == u || (k in order && (u in order || |order| < bound || order == [] || k != order[|order| - 1]))
  {
    WithoutKeeps(order, u);
    if order != [] {
      InFront(order, k);
    }
  }

  lemma InFront(order: seq<string>, k: string)
    requires Distinct(order) && order != []
    ensures k in order[..|order| - 1] <==> k in order && k != order[|order| - 1]
  {
    if k in order && k != order[|order| - 1] {
      var i :| 0 <= i < |order| && order[i] == k;
      assert order[..|order| - 1][i] == k;
    }
  }

  /** Which keys are held after one more use. */
  lemma HeldAfter<E>(log: seq<Use<E>>, bound: nat, u: Use<E>, k: string)
    requires bound > 0
    ensures var held := Order(log, bound);
            k in Order(log + [u], bound) <==>
              k == u.key || (k in held && (u.key in held || |held| < bound || k != held[|held| - 1]))
  {
    OrderBasics(log, bound);
    Snoc(log, bound, u);
    TouchMembers(Order(log, bound), bound, u.key, k);
  }

  /** The one key a use pushes out of a full list is the least recently used of those held. */
  lemma VictimIsLeastRecent<E>(log: seq<Use<E>>, bound: nat, u: Use<E>)
    requires bound > 0 && u.key !in Order(log, bound) && |Order(log, bound)| >= bound
    ensures var held := Order(log, bound);
            var victim := held[|held| - 1];
            && Order(log + [u], bound) == [u.key] + held[..|held| - 1]
            && victim !in Order(log + [u], bound)
            && forall k :: k in held[..|held| - 1] ==> LastUse(log, victim) < LastUse(log, k)
  {
    Snoc(log, bound, u);
    OrderBasics(log, bound);
    var held := Order(log, bound);
    assert held[|held| - 1] in held;
    forall k | k in held[..|held| - 1]
      ensures LastUse(log, held[|held| - 1]) < LastUse(log, k)
    {
      var i :| 0 <= i < |held| - 1 && held[i] == k;
    }
  }
}
