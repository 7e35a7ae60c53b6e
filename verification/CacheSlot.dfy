/**
 One cache entry and its compare-and-set scripts (the scripts in internal/cache/lua, internal/cache/client.go).

 A slot is the Redis hash of a key: the value fields, written and removed together, and the marker
 field a tombstone leaves. `P` stands for the opaque row bytes and the negative flag.
 */
module CacheSlot {
  import opened Common
  import opened Hlc
  import opened Bytes

  datatype Entry<P> = Entry(rowVersion: Version, fillVersion: Version, payload: P, fingerprint: Text)

  datatype Slot<P> = Slot(entry: Option<Entry<P>>, marker: Option<Version>)

  /** fill_cas.lua. The marker survives a fill. */
  function Fill<P>(s: Slot<P>, e: Entry<P>): Slot<P> {
    if s.marker.Some? && e.rowVersion < s.marker.value then s
    else if s.entry.Some? && e.rowVersion < s.entry.value.rowVersion then s
    else if s.entry.Some? && e.rowVersion == s.entry.value.rowVersion
         && e.fillVersion <= s.entry.value.fillVersion then s
    else s.(entry := Some(e))
  }

  /** tombstone_cas.lua. */
  function Tombstone<P>(s: Slot<P>, v: Version): Slot<P> {
    if s.entry.Some? && v <= s.entry.value.rowVersion then s
    else if s.marker.Some? && v <= s.marker.value then s
    else Slot(None, Some(v))
  }

  /** read.lua: an entry of another shape, like a tombstoned one, reads as a miss. */
  function Read<P>(s: Slot<P>, fingerprint: Text): Option<Entry<P>> {
    if s.entry.Some? && s.entry.value.fingerprint == fingerprint then s.entry else None
  }

  /** The newest version this slot has evidence of; -1 for a slot with none. */
  function Level<P>(s: Slot<P>): int {
    Max(if s.entry.Some? then s.entry.value.rowVersion else -1,
        if s.marker.Some? then s.marker.value else -1)
  }

  /** What the scripts keep: a servable entry is never older than the marker beside it. */
  predicate Wf<P>(s: Slot<P>) {
    s.entry.Some? && s.marker.Some? ==> s.marker.value <= s.entry.value.rowVersion
  }

  const EMPTY_LEVEL: int := -1

  function Empty<P>(): Slot<P> { Slot(None, None) }

  // ---- one step ----

  /** A lower version never overwrites a higher one, whoever loses the compare-and-set. */
  lemma FillLevel<P>(s: Slot<P>, e: Entry<P>)
    requires Wf(s)
    ensures Wf(Fill(s, e)) && Level(Fill(s, e)) == Max(Level(s), e.rowVersion)
  {
  }

  lemma TombstoneLevel<P>(s: Slot<P>, v: Version)
    requires Wf(s)
    ensures Wf(Tombstone(s, v)) && Level(Tombstone(s, v)) == Max(Level(s), v)
  {
  }

  // ---- any run of fills and tombstones ----

  datatype Op<P> = OpFill(entry: Entry<P>) | OpTombstone(version: Version)

  function OpVersion<P>(op: Op<P>): Version {
    match op
    case OpFill(e) => e.rowVersion
    case OpTombstone(v) => v
  }

  function Apply<P>(s: Slot<P>, op: Op<P>): Slot<P> {
    match op
    case OpFill(e) => Fill(s, e)
    case OpTombstone(v) => Tombstone(s, v)
  }

  function ApplyAll<P>(s: Slot<P>, ops: seq<Op<P>>): Slot<P> {
    if ops == [] then s else Apply(ApplyAll(s, ops[..|ops| - 1]), ops[|ops| - 1])
  }

  /**
   What a slot has to look like after a set of operations, said without the scripts: its level is
   the newest version among them; something is served exactly when a fill carries that version; and
   what is served is the fill of that version with the freshest snapshot.
   */
  ghost predicate Agrees<P>(s: Slot<P>, ops: set<Op<P>>) {
    && Wf(s)
    && (forall op <- ops :: OpVersion(op) <= Level(s))
    && (Level(s) == EMPTY_LEVEL || exists op <- ops :: OpVersion(op) == Level(s))
    && (s.entry.Some? <==> exists op <- ops :: op.OpFill? && op.entry.rowVersion == Level(s))
    && (s.entry.Some? ==>
          && OpFill(s.entry.value) in ops
          && s.entry.value.rowVersion == Level(s)
          && forall op <- ops :: op.OpFill? && op.entry.rowVersion == Level(s)
                                 ==> op.entry.fillVersion <= s.entry.value.fillVersion)
  }

  ghost function Elements<P>(ops: seq<Op<P>>): set<Op<P>> { set op | op in ops }

  lemma {:induction false} CasComputesNewest<P>(ops: seq<Op<P>>)
    ensures Agrees(ApplyAll(Empty(), ops), Elements(ops))
  {
    if ops != [] {
      var init, last := ops[..|ops| - 1], ops[|ops| - 1];
      CasComputesNewest(init);
      assert Elements(ops) == Elements(init) + {last} by { assert ops == init + [last]; }
      AgreesStep(ApplyAll(Empty(), init), Elements(init), last);
    }
  }

  lemma AgreesStep<P>(s: Slot<P>, ops: set<Op<P>>, op: Op<P>)
    requires Agrees(s, ops)
    ensures Agrees(Apply(s, op), ops + {op})
  {
    var s', ops' := Apply(s, op), ops + {op};
    assert Level(s') == Max(Level(s), OpVersion(op));
    assert op in ops' && ops <= ops';
    if s'.entry.Some? {
      assert OpFill(s'.entry.value) in ops';
    }
    if op.OpFill? && op.entry.rowVersion == Level(s') {
      assert s'.entry.Some?;
    }
    if OpVersion(op) < Level(s') && s.entry.Some? {
      assert s'.entry == s.entry;
    }
  }

  /**
   Duplicated and reordered delivery cannot change the outcome: two runs made of the same operations,
   in any order and any number of times each, serve the same version from the same snapshot, or both
   serve nothing.
   */
  lemma DeliveryOrderIsIrrelevant<P>(first: seq<Op<P>>, second: seq<Op<P>>)
    requires Elements(first) == Elements(second)
    ensures var a, b := ApplyAll(Empty(), first), ApplyAll(Empty(), second);
            && Level(a) == Level(b)
            && (a.entry.Some? <==> b.entry.Some?)
            && (a.entry.Some? ==> a.entry.value.rowVersion == b.entry.value.rowVersion
                                  && a.entry.value.fillVersion == b.entry.value.fillVersion)
  {
    CasComputesNewest(first);
    CasComputesNewest(second);
  }

  /**
   Acked-write floor: from any well-formed slot, once a tombstone at v has been processed, whether it
   won or lost, nothing served after any further fills and tombstones has a row version below v.
   */
  lemma {:induction false} TombstoneFloor<P>(s: Slot<P>, v: Version, later: seq<Op<P>>)
    requires Wf(s)
    ensures var end := ApplyAll(Tombstone(s, v), later);
            && Wf(end) && Level(end) >= v
            && (end.entry.Some? ==> end.entry.value.rowVersion >= v)
  {
    if later != [] {
      TombstoneFloor(s, v, later[..|later| - 1]);
    }
  }

  // ---- versions as Lua compares them ----

  const VERSION_DIGITS: nat := 20

  function EncodeVersion(v: Version): Text { Padded(v, VERSION_DIGITS) }

  /** strconv.ParseUint(s, 10, 64). */
  function DecodeVersion(s: Text): Option<Version> {
    if s != [] && AllDigits(s) && Value(s) < TWO_64 then Some(Value(s)) else None
  }

  lemma TwentyDigitsSuffice()
    ensures Pow10(VERSION_DIGITS) == 100_000_000_000_000_000_000
  {
    assert Pow10(5) == 100_000;
    assert Pow10(10) == 100_000 * 100_000 by { assert Pow10(6) == 1_000_000; assert Pow10(8) == 100_000_000; }
    assert Pow10(12) == 1_000_000_000_000;
    assert Pow10(14) == 100_000_000_000_000;
    assert Pow10(16) == 10_000_000_000_000_000;
    assert Pow10(18) == 1_000_000_000_000_000_000;
  }

  /** The scripts compare strings and never convert: that is the numeric order, and loses nothing. */
  lemma VersionStringsOrder(a: Version, b: Version)
    ensures Less(EncodeVersion(a), EncodeVersion(b)) <==> a < b
    ensures EncodeVersion(a) == EncodeVersion(b) <==> a == b
    ensures DecodeVersion(EncodeVersion(a)) == Some(a)
  {
    TwentyDigitsSuffice();
    PaddedOrder(a, b, VERSION_DIGITS);
    ValueOfPadded(a, VERSION_DIGITS);
  }
}
