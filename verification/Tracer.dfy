/**
 The mutation tracer (pkg/sextant/trace.go): a bounded, recency-ordered set of ring buffers, against the log of
 everything recorded.
 */
module Tracer {
  import opened Common
  import opened Lru

  datatype Event = Event(at: int, op: string, version: nat, source: string, actor: string)

  function LastN<T>(s: seq<T>, n: nat): seq<T> { s[|s| - Min(n, |s|)..] }

  // ---- remainders ----

  lemma ModAdd(a: int, b: int, n: int)
    requires n > 0
    ensures (a % n + b) % n == (a + b) % n
  {
    var q := a / n;
    assert a % n + b == (a + b) - q * n;
    ModMultiple(a + b, q, n);
  }

  lemma ModMultiple(x: int, q: int, n: int)
    requires n > 0
    ensures (x - q * n) % n == x % n
  {
    var r := x % n;
    var p := x / n;
    assert x - q * n == (p - q) * n + r;
    ModUnique(x - q * n, p - q, r, n);
  }

  lemma ModUnique(x: int, q: int, r: int, n: int)
    requires n > 0 && x == q * n + r && 0 <= r < n
    ensures x % n == r
  {
    var q', r' := x / n, x % n;
    assert (q - q') * n == r' - r;
    if q - q' >= 1 {
      MulAtLeast(q - q', n);
    } else if q - q' <= -1 {
      MulAtLeast(q' - q, n);
    }
  }

  /** Numbers less than n apart share a remainder only when they are equal. */
  lemma ModDistinct(i: nat, j: nat, n: nat)
    requires i < j < i + n
    ensures i % n != j % n
  {
    if i % n == j % n {
      assert j - i == (j / n - i / n) * n;
      if j / n - i / n >= 1 {
        MulAtLeast(j / n - i / n, n);
      } else if j / n - i / n <= -1 {
        MulAtLeast(i / n - j / n, n);
      }
    }
  }

  // ---- one key's ring ----

  datatype KeyTrace = KeyTrace(events: seq<Event>, next: nat, filled: nat)

  const NO_EVENT := Event(0, "", 0, "", "")

  function Push(kt: KeyTrace, e: Event): KeyTrace
    requires kt.next < |kt.events|
  {
    KeyTrace(kt.events[kt.next := e], (kt.next + 1) % |kt.events|,
             if kt.filled < |kt.events| then kt.filled + 1 else kt.filled)
  }

  /** The ring holds the newest of a history, each event at its number modulo the size. */
  ghost predicate Rings(kt: KeyTrace, history: seq<Event>, size: nat) {
    && |kt.events| == size > 0 && kt.next == |history| % size && kt.filled == Min(|history|, size)
    && forall i :: |history| - kt.filled <= i < |history| ==> kt.events[i % size] == history[i]
  }

  lemma PushRings(kt: KeyTrace, history: seq<Event>, size: nat, e: Event)
    requires Rings(kt, history, size)
    ensures Rings(Push(kt, e), history + [e], size)
  {
    var n, kt', history' := |history|, Push(kt, e), history + [e];
    NextSlot(n, size);
    forall i | n + 1 - kt'.filled <= i < n + 1
      ensures kt'.events[i % size] == history'[i]
    {
      if i < n {
        ModDistinct(i, n, size);
      }
    }
  }

  lemma NextSlot(n: nat, size: nat)
    requires size > 0
    ensures (n % size + 1) % size == (n + 1) % size
  {
    ModAdd(n, 1, size);
  }

  lemma SlotOf(n: nat, filled: nat, i: nat, size: nat)
    requires size > 0 && filled <= n && filled <= size && i < filled
    ensures ((n % size - filled + size) % size + i) % size == (n - filled + i) % size
  {
    ModAdd(n % size - filled + size, i, size);
    ModAdd(n, size - filled + i, size);
    ModMultiple(n - filled + i + size, 1, size);
  }

  lemma WalkSlot(kt: KeyTrace, history: seq<Event>, start: int, i: nat)
    requires Rings(kt, history, |kt.events|) && i < kt.filled
    requires start == (kt.next - kt.filled + |kt.events|) % |kt.events|
    ensures 0 <= (start + i) % |kt.events| < |kt.events|
    ensures kt.events[(start + i) % |kt.events|] == history[|history| - kt.filled + i]
  {
    SlotOf(|history|, kt.filled, i, |kt.events|);
  }

  // ---- the tracer ----

  class Tracer {
    const keysTracked: nat
    const eventsPerKey: nat
    var order: seq<string>
    var byKey: map<string, KeyTrace>
    ghost var log: seq<Use<Event>>

    ghost predicate Valid()
      reads this
    {
      && keysTracked > 0 && eventsPerKey > 0 && order == Order(log, keysTracked)
      && (forall k :: k in byKey <==> k in order)
      && forall k :: k in byKey ==> Rings(byKey[k], Since(log, keysTracked, k), eventsPerKey)
    }

    constructor (keys: int, events: int)
      ensures Valid() && log == []
      ensures keysTracked == (if keys <= 0 then 10_000 else keys)
      ensures eventsPerKey == (if events <= 0 then 32 else events)
    {
      keysTracked := if keys <= 0 then 10_000 else keys;
      eventsPerKey := if events <= 0 then 32 else events;
      order, byKey, log := [], map[], [];
    }

    method Record(key: string, e: Event)
      requires Valid()
      modifies this
      ensures Valid() && log == old(log) + [Use(key, e)]
    {
      OrderBasics(log, keysTracked);
      Snoc(log, keysTracked, Use(key, e));
      Enter(key);
      ghost var history := if key in old(byKey) then Since(log, keysTracked, key) else [];
      PushRings(byKey[key], history, eventsPerKey, e);
      byKey := byKey[key := Push(byKey[key], e)];
      log := log + [Use(key, e)];
    }

    /** Bring a key to the front, with an empty ring if it is new, dropping the oldest key of a full table. */
    method Enter(key: string)
      requires keysTracked > 0 && eventsPerKey > 0 && Distinct(order) && forall k :: k in byKey <==> k in order
      modifies this`order, this`byKey
      ensures order == Touch(old(order), keysTracked, key) && forall k :: k in byKey <==> k in order
      ensures key in byKey && forall k :: k in byKey && k in old(byKey) ==> byKey[k] == old(byKey[k])
      ensures forall k :: k in byKey && k != key ==> k in old(byKey)
      ensures key !in old(byKey) ==> Rings(byKey[key], [], eventsPerKey)
    {
      WithoutKeeps(order, key);
      if key in byKey {
        order := [key] + Without(order, key);
      } else {
        if |order| >= keysTracked {
          var back := order[|order| - 1];
          forall k ensures k in order[..|order| - 1] <==> k in order && k != back {
            InFront(order, k);
          }
          byKey := byKey - {back};
          order := order[..|order| - 1];
        }
        order := [key] + order;
        byKey := byKey[key := KeyTrace(seq(eventsPerKey, _ => NO_EVENT), 0, 0)];
      }
    }

    /**
     The last eventsPerKey events recorded since the key last came in, oldest first; nothing for a key that is
     not tracked.
     */
    method Trace(key: string) returns (out: seq<Event>)
      requires Valid()
      ensures out == if key in Order(log, keysTracked) then LastN(Since(log, keysTracked, key), eventsPerKey) else []
    {
      if key !in byKey {
        return [];
      }
      out := Snapshot(byKey[key], Since(log, keysTracked, key));
    }

    /** The tracked keys are the keysTracked most recently recorded distinct ones. */
    method TrackedKeys() returns (n: nat)
      requires Valid()
      ensures n == |order| && order == Recent(log)[..Min(keysTracked, |Recent(log)|)]
    {
      OrderIsMostRecent(log, keysTracked);
      n := |order|;
    }
  }

  /** The walk from the oldest surviving slot. */
  method Snapshot(kt: KeyTrace, ghost history: seq<Event>) returns (out: seq<Event>)
    requires Rings(kt, history, |kt.events|)
    ensures out == LastN(history, |kt.events|)
  {
    var size := |kt.events|;
    var start := (kt.next - kt.filled + size) % size;
    ghost var from := |history| - kt.filled;
    out := [];
    for i := 0 to kt.filled
      invariant out == history[from..from + i]
    {
      var slot := (start + i) % size;
      WalkSlot(kt, history, start, i);
      assert history[from..from + i + 1] == history[from..from + i] + [history[from + i]];
      out := out + [kt.events[slot]];
    }
  }
}
