/**
 A cache node as the client drives it (internal/cache/client.go): hashes holding version STRINGS, and
 the lease companion key of each entry. Every method is one script, so it is atomic.
 */
module CacheNode {
  import opened Common
  import opened Hlc
  import opened Bytes
  import opened CacheSlot

  datatype RawEntry<P> = RawEntry(v: Text, f: Text, r: P, h: Text)

  datatype RawHash<P> = RawHash(value: Option<RawEntry<P>>, t: Option<Text>)

  function Encode<P>(s: Slot<P>): RawHash<P> {
    RawHash(
      match s.entry case None => None case Some(e) =>
        Some(RawEntry(EncodeVersion(e.rowVersion), EncodeVersion(e.fillVersion), e.payload, e.fingerprint)),
      match s.marker case None => None case Some(t) => Some(EncodeVersion(t)))
  }

  /** The branch of the fill script that writes. */
  predicate FillWins<P>(s: Slot<P>, e: Entry<P>) {
    && (s.marker.Some? ==> s.marker.value <= e.rowVersion)
    && (s.entry.Some? ==> s.entry.value.rowVersion < e.rowVersion
                          || (s.entry.value.rowVersion == e.rowVersion
                              && s.entry.value.fillVersion < e.fillVersion))
  }

  /** The script's comparisons of strings take the branch that versions would, and it leaves what Fill leaves. */
  lemma FillByStrings<P>(s: Slot<P>, e: Entry<P>)
    requires Wf(s)
    ensures var cur, rv, fv := Encode(s), EncodeVersion(e.rowVersion), EncodeVersion(e.fillVersion);
            && (FillWins(s, e) <==>
                  && (cur.t.Some? ==> !Less(rv, cur.t.value))
                  && (cur.value.Some? ==> !Less(rv, cur.value.value.v)
                                          && !(rv == cur.value.value.v && !Less(cur.value.value.f, fv))))
            && Fill(s, e) == (if FillWins(s, e) then s.(entry := Some(e)) else s)
            && (FillWins(s, e) ==>
                  Wf(Fill(s, e)) && Encode(Fill(s, e)) == cur.(value := Some(RawEntry(rv, fv, e.payload, e.fingerprint))))
  {
    if s.marker.Some? {
      VersionStringsOrder(e.rowVersion, s.marker.value);
    }
    if s.entry.Some? {
      VersionStringsOrder(e.rowVersion, s.entry.value.rowVersion);
      VersionStringsOrder(s.entry.value.fillVersion, e.fillVersion);
    }
  }

  /** The other script's comparisons: it applies exactly what is newer than all the slot knows. */
  lemma TombstoneByStrings<P>(s: Slot<P>, v: Version)
    ensures var cur, text := Encode(s), EncodeVersion(v);
            v > Level(s) <==>
              (cur.value.Some? ==> Less(cur.value.value.v, text)) && (cur.t.Some? ==> Less(cur.t.value, text))
    ensures Tombstone(s, v) == if v > Level(s) then Slot(None, Some(v)) else s
  {
    if s.entry.Some? {
      VersionStringsOrder(s.entry.value.rowVersion, v);
    }
    if s.marker.Some? {
      VersionStringsOrder(s.marker.value, v);
    }
  }

  datatype LeaseReply<P> = Hit(v: Text, f: Text, r: P) | Granted | Wait

  // ---- the node's content, call by call ----

  datatype Content<P> = Content(slots: map<Text, Slot<P>>, leases: map<Text, Text>)

  datatype NodeCall<P> =
    | Fills(key: Text, entry: Entry<P>, token: Text)
    | Invalidates(key: Text, version: Version)
    | Ask(key: Text, token: Text, fingerprint: Text)
    | Loses(key: Text)
    | LeaseExpires(key: Text)

  function SlotIn<P>(c: Content<P>, key: Text): Slot<P> { if key in c.slots then c.slots[key] else Empty() }

  predicate Grants<P>(c: Content<P>, key: Text, fingerprint: Text) {
    Read(SlotIn(c, key), fingerprint).None? && key !in c.leases
  }

  function HandedBack(leases: map<Text, Text>, key: Text, token: Text): map<Text, Text> {
    if token != [] && key in leases && leases[key] == token then leases - {key} else leases
  }

  function ContentAfter<P>(c: Content<P>, call: NodeCall<P>): Content<P> {
    match call
    case Fills(key, e, token) =>
      Content(if FillWins(SlotIn(c, key), e) then c.slots[key := Fill(SlotIn(c, key), e)] else c.slots,
              HandedBack(c.leases, key, token))
    case Invalidates(key, v) =>
      c.(slots := if v > Level(SlotIn(c, key)) then c.slots[key := Slot(None, Some(v))] else c.slots)
    case Ask(key, token, fingerprint) =>
      if Grants(c, key, fingerprint) then c.(leases := c.leases[key := token]) else c
    case Loses(key) => c.(slots := c.slots - {key})
    case LeaseExpires(key) => c.(leases := c.leases - {key})
  }

  class Node<P> {
    var hashes: map<Text, RawHash<P>>
    var leases: map<Text, Text>
    ghost var slots: map<Text, Slot<P>>

    ghost predicate Valid()
      reads this
    {
      && hashes.Keys == slots.Keys
      && forall k <- slots :: hashes[k] == Encode(slots[k]) && Wf(slots[k])
    }

    ghost function SlotOf(key: Text): Slot<P>
      reads this
    {
      if key in slots then slots[key] else Empty()
    }

    ghost function View(): Content<P>
      reads this
    {
      Content(slots, leases)
    }

    function HashOf(key: Text): RawHash<P>
      reads this
    {
      if key in hashes then hashes[key] else RawHash(None, None)
    }

    constructor ()
      ensures Valid() && slots == map[] && leases == map[]
    {
      hashes, leases, slots := map[], map[], map[];
    }

    /** fill_cas.lua with the client's arguments. The lease goes back only if this filler still owns it. */
    method FillWithLease(key: Text, e: Entry<P>, token: Text) returns (applied: bool)
      requires Valid()
      modifies this
      ensures Valid()
      ensures applied <==> FillWins(old(SlotOf(key)), e)
      ensures applied ==> slots == old(slots)[key := Fill(old(SlotOf(key)), e)]
      ensures !applied ==> slots == old(slots)
      ensures leases == HandedBack(old(leases), key, token)
      ensures View() == ContentAfter(old(View()), Fills(key, e, token))
    {
      var rv, fv := EncodeVersion(e.rowVersion), EncodeVersion(e.fillVersion);
      var cur := HashOf(key);
      ghost var s := SlotOf(key);
      assert cur == Encode(s) && Wf(s);
      FillByStrings(s, e);
      if token != [] && key in leases && leases[key] == token {
        leases := leases - {key};
      }
      if cur.t.Some? && Less(rv, cur.t.value) {
        return false;
      }
      if cur.value.Some? {
        if Less(rv, cur.value.value.v) {
          return false;
        }
        if rv == cur.value.value.v && !Less(cur.value.value.f, fv) {
          return false;
        }
      }
      hashes := hashes[key := cur.(value := Some(RawEntry(rv, fv, e.payload, e.fingerprint)))];
      slots := slots[key := Fill(s, e)];
      return true;
    }

    /** tombstone_cas.lua. */
    method Invalidate(key: Text, v: Version) returns (applied: bool)
      requires Valid()
      modifies this
      ensures Valid() && leases == old(leases)
      ensures applied <==> v > Level(old(SlotOf(key)))
      ensures applied ==> slots == old(slots)[key := Slot(None, Some(v))]
      ensures !applied ==> slots == old(slots)
      ensures SlotOf(key) == Tombstone(old(SlotOf(key)), v)
      ensures View() == ContentAfter(old(View()), Invalidates(key, v))
    {
      var text := EncodeVersion(v);
      var cur := HashOf(key);
      ghost var s := SlotOf(key);
      assert cur == Encode(s);
      TombstoneByStrings(s, v);
      if cur.value.Some? {
        if !Less(cur.value.value.v, text) {
          return false;
        }
      }
      if cur.t.Some? {
        if !Less(cur.t.value, text) {
          return false;
        }
      }
      hashes := hashes[key := RawHash(None, Some(text))];
      slots := slots[key := Slot(None, Some(v))];
      return true;
    }

    /** read_lease.lua: one step decides between a hit, the right to fill, and waiting. */
    method GetOrLease(key: Text, token: Text, fingerprint: Text) returns (r: LeaseReply<P>)
      requires Valid()
      modifies this`leases
      ensures Valid()
      ensures r.Hit? <==> Read(SlotOf(key), fingerprint).Some?
      ensures r.Hit? ==> var e := Read(SlotOf(key), fingerprint).value;
                         && DecodeVersion(r.v) == Some(e.rowVersion)
                         && DecodeVersion(r.f) == Some(e.fillVersion)
                         && r.r == e.payload
      ensures r.Granted? <==> !r.Hit? && key !in old(leases)
      ensures leases == if r.Granted? then old(leases)[key := token] else old(leases)
      ensures View() == ContentAfter(old(View()), Ask(key, token, fingerprint))
      ensures r.Granted? <==> Grants(old(View()), key, fingerprint)
    {
      var cur := HashOf(key);
      assert cur == Encode(SlotOf(key));
      if cur.value.Some? && cur.value.value.h == fingerprint {
        var raw := cur.value.value;
        VersionStringsOrder(SlotOf(key).entry.value.rowVersion, 0);
        VersionStringsOrder(SlotOf(key).entry.value.fillVersion, 0);
        return Hit(raw.v, raw.f, raw.r);
      }
      if key !in leases {
        leases := leases[key := token];
        return Granted;
      }
      return Wait;
    }

    /** Expiry or memory pressure takes the whole hash, marker included. */
    method Lose(key: Text)
      requires Valid()
      modifies this
      ensures Valid() && leases == old(leases)
      ensures slots == old(slots) - {key} && View() == ContentAfter(old(View()), Loses(key))
    {
      hashes := hashes - {key};
      slots := slots - {key};
    }

    method ExpireLease(key: Text)
      requires Valid()
      modifies this`leases
      ensures Valid() && leases == old(leases) - {key} && View() == ContentAfter(old(View()), LeaseExpires(key))
    {
      leases := leases - {key};
    }
  }

  // ---- who may fill a key ----

  /** What the node did, over a whole run of its scripts, of expiry and of memory pressure. */
  ghost predicate Run<P>(states: seq<Content<P>>, calls: seq<NodeCall<P>>) {
    && |states| == |calls| + 1
    && forall i :: 0 <= i < |calls| ==> states[i + 1] == ContentAfter(states[i], calls[i])
  }

  /** The i-th call was granted the right to fill the key, under the token it offered. */
  ghost predicate GrantedAt<P>(states: seq<Content<P>>, calls: seq<NodeCall<P>>, i: nat, key: Text) {
    i < |calls| && i < |states| && calls[i].Ask? && calls[i].key == key && Grants(states[i], key, calls[i].fingerprint)
  }

  predicate EndsLease<P>(c: NodeCall<P>, key: Text, token: Text) {
    (c.LeaseExpires? && c.key == key) || (c.Fills? && c.key == key && c.token == token != [])
  }

  lemma {:induction false} LeaseStays<P>(states: seq<Content<P>>, calls: seq<NodeCall<P>>, i: nat, j: nat, key: Text)
    requires Run(states, calls) && GrantedAt(states, calls, i, key) && i < j < |states|
    requires forall m :: i < m < j ==> !EndsLease(calls[m], key, calls[i].token)
    ensures key in states[j].leases && states[j].leases[key] == calls[i].token
  {
    if i + 1 < j {
      LeaseStays(states, calls, i, j - 1, key);
    }
  }

  /**
   Exclusion. Between two grants of one key, in any run of the node, the first lease either expired or was
   handed back by a fill under its own token: no reader is admitted to the origin beside its holder,
   whatever stale tokens other fillers return.
   */
  lemma LeaseIsExclusive<P>(states: seq<Content<P>>, calls: seq<NodeCall<P>>, i: nat, j: nat, key: Text)
    requires Run(states, calls) && i < j && GrantedAt(states, calls, i, key) && GrantedAt(states, calls, j, key)
    ensures exists m :: i < m < j && EndsLease(calls[m], key, calls[i].token)
  {
    if forall m :: i < m < j ==> !EndsLease(calls[m], key, calls[i].token) {
      LeaseStays(states, calls, i, j, key);
      assert false;
    }
  }

  /** The holder's own fill frees the key, whether it won or lost; and nobody else's does. */
  lemma OnlyItsHolderFreesTheKey<P>(states: seq<Content<P>>, calls: seq<NodeCall<P>>, i: nat, j: nat, key: Text)
    requires Run(states, calls) && GrantedAt(states, calls, i, key) && i < j < |calls|
    requires calls[j].Fills? && calls[j].key == key && calls[i].token != []
    requires forall m :: i < m < j ==> !EndsLease(calls[m], key, calls[i].token)
    ensures key !in states[j + 1].leases <==> calls[j].token == calls[i].token
  {
    LeaseStays(states, calls, i, j, key);
    assert states[j + 1] == ContentAfter(states[j], calls[j]);
  }

  /** So after it the next reader to miss is granted the right to fill. */
  lemma NextMissIsGranted<P>(states: seq<Content<P>>, calls: seq<NodeCall<P>>, i: nat, j: nat, key: Text)
    requires Run(states, calls) && GrantedAt(states, calls, i, key) && i < j && j + 1 < |calls|
    requires calls[j].Fills? && calls[j].key == key && calls[j].token == calls[i].token != []
    requires forall m :: i < m < j ==> !EndsLease(calls[m], key, calls[i].token)
    requires calls[j + 1].Ask? && calls[j + 1].key == key
    ensures GrantedAt(states, calls, j + 1, key) <==> Read(SlotIn(states[j + 1], key), calls[j + 1].fingerprint).None?
  {
    OnlyItsHolderFreesTheKey(states, calls, i, j, key);
  }

  /**
   Shapes: after a fill that won, the next call asking under the same fingerprint is answered with that very entry,
   and one asking under another is not answered from the cache, in any run.
   */
  lemma AnotherShapeIsAMiss<P>(states: seq<Content<P>>, calls: seq<NodeCall<P>>, j: nat, fingerprint: Text)
    requires Run(states, calls) && j < |calls| && calls[j].Fills? && FillWins(SlotIn(states[j], calls[j].key), calls[j].entry)
    ensures Read(SlotIn(states[j + 1], calls[j].key), fingerprint)
            == if fingerprint == calls[j].entry.fingerprint then Some(calls[j].entry) else None
  {
    assert states[j + 1] == ContentAfter(states[j], calls[j]);
  }

  /** And after a tombstone that was applied, every shape is a miss. */
  lemma TombstonedIsAMiss<P>(states: seq<Content<P>>, calls: seq<NodeCall<P>>, j: nat, fingerprint: Text)
    requires Run(states, calls) && j < |calls| && calls[j].Invalidates? && calls[j].version > Level(SlotIn(states[j], calls[j].key))
    ensures Read(SlotIn(states[j + 1], calls[j].key), fingerprint).None?
  {
    assert states[j + 1] == ContentAfter(states[j], calls[j]);
  }
}
