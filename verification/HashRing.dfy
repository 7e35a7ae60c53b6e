/**
 The consistent-hash ring (internal/hashring/ring.go), for any hash function.

 The routing rule is stated over the SET of nodes; the ring that is built and searched is proved to follow it.
 */
module HashRing {
  import opened Common
  import opened Bytes

  const VIRTUAL_NODES: nat := 256

  type Hash = Text -> nat

  datatype Placement = Placement(point: nat, node: Text)

  /** The i-th virtual node of n: its name, '#' and the numeral i. */
  function VirtualName(n: Text, i: nat): Text { n + [35] + Decimal(i) }

  function Place(hash: Hash, n: Text, i: nat): Placement { Placement(hash(VirtualName(n, i)), n) }

  ghost function Placements(hash: Hash, nodes: set<Text>): set<Placement> {
    set n, i | n in nodes && 0 <= i < VIRTUAL_NODES :: Place(hash, n, i)
  }

  /** No two virtual nodes hash the same text: a name is read back from before its last '#', a number from after. */
  lemma VirtualNamesAreDistinct(n: Text, i: nat, m: Text, j: nat)
    ensures VirtualName(n, i) == VirtualName(m, j) ==> n == m && i == j
  {
    var s, t := VirtualName(n, i), VirtualName(m, j);
    LastHashSplits(n, Decimal(i));
    LastHashSplits(m, Decimal(j));
    assert s[..|n|] == n && t[..|m|] == m && s[|n| + 1..] == Decimal(i) && t[|m| + 1..] == Decimal(j);
    ValueOfDecimal(i);
    ValueOfDecimal(j);
  }

  /** Where the last '#' of a text is. */
  function LastHash(s: Text): nat {
    if s == [] then 0 else if s[|s| - 1] == 35 then |s| - 1 else LastHash(s[..|s| - 1])
  }

  lemma {:induction false} LastHashSplits(n: Text, digits: Text)
    requires AllDigits(digits)
    ensures LastHash(n + [35] + digits) == |n|
    decreases digits
  {
    var s := n + [35] + digits;
    if digits != [] {
      LastHashSplits(n, digits[..|digits| - 1]);
      assert s[..|s| - 1] == n + [35] + digits[..|digits| - 1] && IsDigit(s[|s| - 1]);
    }
  }

  /** No two of the first `count` virtual names of n have one hash. */
  ghost predicate TellsApart(hash: Hash, n: Text, count: nat) {
    forall i: nat, j: nat :: i < j < count ==> hash(VirtualName(n, i)) != hash(VirtualName(n, j))
  }

  ghost function FirstPlaces(hash: Hash, n: Text, count: nat): set<Placement> {
    set i: nat | i < count :: Place(hash, n, i)
  }

  lemma OneMorePlace(hash: Hash, n: Text, count: nat)
    ensures FirstPlaces(hash, n, count + 1) == FirstPlaces(hash, n, count) + {Place(hash, n, count)}
    ensures TellsApart(hash, n, count + 1) <==>
              TellsApart(hash, n, count) && Place(hash, n, count) !in FirstPlaces(hash, n, count)
  {
    var last := Place(hash, n, count);
    assert forall i: nat :: i < count ==> (Place(hash, n, i) == last <==> hash(VirtualName(n, i)) == hash(VirtualName(n, count)));
    if last in FirstPlaces(hash, n, count) {
      var i: nat :| i < count && Place(hash, n, i) == last;
      assert hash(VirtualName(n, i)) == hash(VirtualName(n, count));
    } else {
      forall i: nat | i < count ensures hash(VirtualName(n, i)) != hash(VirtualName(n, count)) {
        assert Place(hash, n, i) in FirstPlaces(hash, n, count);
      }
    }
  }

  lemma {:induction false} CountPlaces(hash: Hash, n: Text, count: nat)
    ensures |FirstPlaces(hash, n, count)| <= count
    ensures |FirstPlaces(hash, n, count)| == count <==> TellsApart(hash, n, count)
  {
    if count > 0 {
      CountPlaces(hash, n, count - 1);
      OneMorePlace(hash, n, count - 1);
    }
  }

  /** So a node has all its 256 points if and only if the hash tells its 256 virtual names apart. */
  lemma AllPointsPlaced(hash: Hash, n: Text)
    ensures |Placements(hash, {n})| == 256 <==> TellsApart(hash, n, 256)
  {
    CountPlaces(hash, n, VIRTUAL_NODES);
    assert Placements(hash, {n}) == FirstPlaces(hash, n, VIRTUAL_NODES);
  }

  // ---- orders ----

  predicate NodeLe(a: Text, b: Text) { a == b || Less(a, b) }

  predicate PlacementLe(p: Placement, q: Placement) {
    p.point < q.point || (p.point == q.point && NodeLe(p.node, q.node))
  }

  /** Going clockwise from h, p is met no later than q. */
  predicate Clockwise(h: nat, p: Placement, q: Placement) {
    if p.point >= h then q.point < h || PlacementLe(p, q) else q.point < h && PlacementLe(p, q)
  }

  lemma ClockwiseIsTotal(h: nat, p: Placement, q: Placement)
    ensures Clockwise(h, p, q) || Clockwise(h, q, p)
    ensures Clockwise(h, p, q) && Clockwise(h, q, p) ==> p == q
  {
    LessTotal(p.node, q.node);
  }

  lemma ClockwiseIsTransitive(h: nat, p: Placement, q: Placement, r: Placement)
    requires Clockwise(h, p, q) && Clockwise(h, q, r)
    ensures Clockwise(h, p, r)
  {
    if Less(p.node, q.node) && Less(q.node, r.node) {
      LessTransitive(p.node, q.node, r.node);
    }
  }

  // ---- the rule ----

  /** p is the first placement met going clockwise from h. */
  ghost predicate First(h: nat, placed: set<Placement>, p: Placement) {
    p in placed && forall q :: q in placed ==> Clockwise(h, p, q)
  }

  lemma FirstIsUnique(h: nat, placed: set<Placement>, p: Placement, q: Placement)
    requires First(h, placed, p) && First(h, placed, q)
    ensures p == q
  {
    ClockwiseIsTotal(h, p, q);
  }

  lemma FirstExists(h: nat, placed: set<Placement>) returns (p: Placement)
    requires placed != {}
    ensures First(h, placed, p)
    decreases |placed|
  {
    p :| p in placed;
    ClockwiseIsTotal(h, p, p);
    var rest := placed - {p};
    if rest == {} {
      assert placed == {p};
    } else {
      var q := FirstExists(h, rest);
      ClockwiseIsTotal(h, p, q);
      if Clockwise(h, p, q) {
        forall r | r in placed ensures Clockwise(h, p, r) {
          if r != p {
            ClockwiseIsTransitive(h, p, q, r);
          }
        }
      } else {
        p := q;
      }
    }
  }

  datatype Error = NoNodes

  /** n owns the key: its placement is the key's clockwise successor. With no nodes there is no owner. */
  ghost predicate Owns(hash: Hash, nodes: set<Text>, key: Text, r: Result<Text, Error>) {
    match r
    case Err(_) => nodes == {}
    case Ok(n) => exists p :: First(hash(key), Placements(hash, nodes), p) && p.node == n
  }

  lemma EveryNodeIsPlaced(hash: Hash, nodes: set<Text>, n: Text)
    requires n in nodes
    ensures Place(hash, n, 0) in Placements(hash, nodes)
  {
  }

  lemma PlacedNodesAreNodes(hash: Hash, nodes: set<Text>, p: Placement)
    requires p in Placements(hash, nodes)
    ensures p.node in nodes
  {
  }

  /** Every key has exactly one owner, a member of the node set; or none, when the set is empty. */
  lemma OneOwner(hash: Hash, nodes: set<Text>, key: Text) returns (r: Result<Text, Error>)
    ensures Owns(hash, nodes, key, r) && forall r' :: Owns(hash, nodes, key, r') ==> r' == r
    ensures r.Ok? <==> nodes != {}
    ensures r.Ok? ==> r.value in nodes
  {
    if nodes == {} {
      r := Err(NoNodes);
      forall r' | Owns(hash, nodes, key, r') ensures r' == r {
        assert r'.Err? ==> r'.error == NoNodes;
      }
    } else {
      var n :| n in nodes;
      EveryNodeIsPlaced(hash, nodes, n);
      var p := FirstExists(hash(key), Placements(hash, nodes));
      PlacedNodesAreNodes(hash, nodes, p);
      r := Ok(p.node);
      forall r' | Owns(hash, nodes, key, r') ensures r' == r {
        var q :| First(hash(key), Placements(hash, nodes), q) && q.node == r'.value;
        FirstIsUnique(hash(key), Placements(hash, nodes), p, q);
      }
    }
  }

  /**
   Minimal disruption, both ways. When a node joins, a key either keeps its owner or goes to the new node; so
   when one leaves, only the keys it held move. Ties between placements are included.
   */
  lemma OnlyItsKeysMove(hash: Hash, nodes: set<Text>, n: Text, key: Text, r: Result<Text, Error>, r': Result<Text, Error>)
    requires Owns(hash, nodes - {n}, key, r) && Owns(hash, nodes + {n}, key, r')
    ensures r' == r || r' == Ok(n)
  {
    if r'.Ok? && r'.value != n {
      var before, after := Placements(hash, nodes - {n}), Placements(hash, nodes + {n});
      var p' :| First(hash(key), after, p') && p'.node == r'.value;
      assert First(hash(key), before, p');
      PlacedNodesAreNodes(hash, nodes - {n}, p');
      if r.Ok? {
        var p :| First(hash(key), before, p) && p.node == r.value;
        FirstIsUnique(hash(key), before, p, p');
      }
    }
  }

  /** A key goes to the joining node exactly when one of its placements comes before the old owner's. */
  lemma JoinerTakesWhatItPrecedes(hash: Hash, nodes: set<Text>, n: Text, key: Text, p: Placement)
    requires n !in nodes && First(hash(key), Placements(hash, nodes), p)
    ensures Owns(hash, nodes + {n}, key, Ok(n)) <==>
              exists i :: 0 <= i < VIRTUAL_NODES && !Clockwise(hash(key), p, Place(hash, n, i))
  {
    var h, before, after := hash(key), Placements(hash, nodes), Placements(hash, nodes + {n});
    PlacedNodesAreNodes(hash, nodes, p);
    if Owns(hash, nodes + {n}, key, Ok(n)) {
      var q :| First(h, after, q) && q.node == n;
      assert p in after;
      ClockwiseIsTotal(h, p, q);
    } else if i :| 0 <= i < VIRTUAL_NODES && !Clockwise(h, p, Place(hash, n, i)) {
      var q := Place(hash, n, i);
      assert q in after;
      var f := FirstExists(h, after);
      if f.node != n {
        assert f in before;
        ClockwiseIsTransitive(h, p, f, q);
      }
    }
  }

  // ---- sorting ----

  ghost predicate Ascending<T(!new)>(s: seq<T>, le: (T, T) -> bool) {
    forall i, j :: 0 <= i <= j < |s| ==> le(s[i], s[j])
  }

  ghost predicate IsOrder<T(!new)>(le: (T, T) -> bool) {
    (forall a, b :: le(a, b) || le(b, a)) && forall a, b, c :: le(a, b) && le(b, c) ==> le(a, c)
  }

  function Insert<T>(s: seq<T>, x: T, le: (T, T) -> bool): seq<T> {
    if s == [] || le(x, s[0]) then [x] + s else [s[0]] + Insert(s[1..], x, le)
  }

  function Sorted<T>(s: seq<T>, le: (T, T) -> bool): seq<T> {
    if s == [] then [] else Insert(Sorted(s[1..], le), s[0], le)
  }

  lemma {:induction false} InsertSorts<T(!new)>(s: seq<T>, x: T, le: (T, T) -> bool)
    requires IsOrder(le) && Ascending(s, le)
    ensures Ascending(Insert(s, x, le), le) && multiset(Insert(s, x, le)) == multiset(s) + multiset{x}
  {
    if s != [] && !le(x, s[0]) {
      InsertSorts(s[1..], x, le);
      var rest := Insert(s[1..], x, le);
      assert s == [s[0]] + s[1..];
      forall i | 0 <= i < |rest| ensures le(s[0], rest[i]) {
        assert rest[i] in multiset(rest);
        assert rest[i] == x || rest[i] in s[1..];
      }
    } else if s != [] {
      assert forall i :: 0 <= i < |s| ==> le(s[0], s[i]);
    }
  }

  lemma {:induction false} SortedSorts<T(!new)>(s: seq<T>, le: (T, T) -> bool)
    requires IsOrder(le)
    ensures Ascending(Sorted(s, le), le) && multiset(Sorted(s, le)) == multiset(s)
  {
    if s != [] {
      SortedSorts(s[1..], le);
      InsertSorts(Sorted(s[1..], le), s[0], le);
      assert s == [s[0]] + s[1..];
    }
  }

  lemma PlacementLeIsOrder()
    ensures IsOrder(PlacementLe)
  {
    forall p, q ensures PlacementLe(p, q) || PlacementLe(q, p) {
      LessTotal(p.node, q.node);
    }
    forall p, q, r | PlacementLe(p, q) && PlacementLe(q, r) ensures PlacementLe(p, r) {
      if Less(p.node, q.node) && Less(q.node, r.node) {
        LessTransitive(p.node, q.node, r.node);
      }
    }
  }

  lemma NodeLeIsOrder()
    ensures IsOrder(NodeLe)
  {
    forall p, q ensures NodeLe(p, q) || NodeLe(q, p) {
      LessTotal(p, q);
    }
    forall p, q, r | NodeLe(p, q) && NodeLe(q, r) ensures NodeLe(p, r) {
      if Less(p, q) && Less(q, r) {
        LessTransitive(p, q, r);
      }
    }
  }

  // ---- the ring ----

  datatype Ring = Ring(points: seq<nat>, owner: seq<Text>, nodes: seq<Text>)

  /** The ring is the placements of a node set, in order. */
  ghost predicate Represents(r: Ring, hash: Hash, nodes: set<Text>) {
    && |r.points| == |r.owner|
    && (forall i, j :: 0 <= i <= j < |r.points| ==>
          PlacementLe(Placement(r.points[i], r.owner[i]), Placement(r.points[j], r.owner[j])))
    && (forall i :: 0 <= i < |r.points| ==> Placement(r.points[i], r.owner[i]) in Placements(hash, nodes))
    && (forall p :: p in Placements(hash, nodes) ==>
          exists i :: 0 <= i < |r.points| && r.points[i] == p.point && r.owner[i] == p.node)
    && Ascending(r.nodes, NodeLe) && multiset(r.nodes) == multiset(nodes)
  }

  /** NewRing: depends on its arguments only through the set they form. */
  method NewRing(hash: Hash, names: seq<Text>) returns (r: Ring)
    ensures Represents(r, hash, set n | n in names)
  {
    var unique := Unique(names);
    var listed := List(unique);
    var sorted := Sorted(listed, NodeLe);
    NodeLeIsOrder();
    SortedSorts(listed, NodeLe);
    var placements := PlaceAll(hash, sorted, unique);
    var inOrder := Sorted(placements, PlacementLe);
    r := Lay(inOrder, sorted);
    LaidRepresents(r, hash, unique, placements, inOrder);
  }

  lemma LaidRepresents(r: Ring, hash: Hash, nodes: set<Text>, placements: seq<Placement>, inOrder: seq<Placement>)
    requires forall p :: p in placements <==> p in Placements(hash, nodes)
    requires inOrder == Sorted(placements, PlacementLe) && |r.points| == |r.owner| == |inOrder|
    requires forall i :: 0 <= i < |inOrder| ==> inOrder[i] == Placement(r.points[i], r.owner[i])
    requires Ascending(r.nodes, NodeLe) && multiset(r.nodes) == multiset(nodes)
    ensures Represents(r, hash, nodes)
  {
    PlacementLeIsOrder();
    SortedSorts(placements, PlacementLe);
    SameElements(placements, inOrder);
  }

  /** Two lists with the same multiset have the same elements. */
  lemma SameElements<T>(s: seq<T>, t: seq<T>)
    requires multiset(s) == multiset(t)
    ensures forall x :: x in s <==> x in t
  {
    forall x ensures x in s <==> x in t {
      assert x in s <==> x in multiset(s);
      assert x in t <==> x in multiset(t);
    }
  }

  /** The names given, each once. */
  method Unique(names: seq<Text>) returns (unique: set<Text>)
    ensures unique == set n | n in names
  {
    unique := {};
    for i := 0 to |names|
      invariant unique == set n | n in names[..i]
    {
      assert names[..i + 1] == names[..i] + [names[i]];
      unique := unique + {names[i]};
    }
    assert names[..|names|] == names;
  }

  /** Ranging over a map of names, in whatever order. */
  method List(unique: set<Text>) returns (s: seq<Text>)
    ensures multiset(s) == multiset(unique)
  {
    s := [];
    var todo := unique;
    while todo != {}
      invariant todo <= unique && multiset(s) == multiset(unique - todo)
      decreases |todo|
    {
      var n :| n in todo;
      assert unique - (todo - {n}) == (unique - todo) + {n};
      todo := todo - {n};
      s := s + [n];
    }
    assert unique - todo == unique;
  }

  method PlaceAll(hash: Hash, sorted: seq<Text>, ghost nodes: set<Text>) returns (ps: seq<Placement>)
    requires multiset(sorted) == multiset(nodes)
    ensures forall p :: p in ps <==> p in Placements(hash, nodes)
  {
    ps := [];
    for k := 0 to |sorted|
      invariant forall p :: p in ps <==> exists j, i :: 0 <= j < k && 0 <= i < VIRTUAL_NODES && p == Place(hash, sorted[j], i)
    {
      ghost var before := ps;
      for i := 0 to VIRTUAL_NODES
        invariant forall p :: p in ps <==> p in before || exists e :: 0 <= e < i && p == Place(hash, sorted[k], e)
      {
        ps := ps + [Place(hash, sorted[k], i)];
      }
    }
    forall n ensures n in sorted <==> n in nodes {
      assert n in sorted <==> n in multiset(sorted);
      assert n in nodes <==> n in multiset(nodes);
    }
    forall p | p in Placements(hash, nodes) ensures p in ps {
      var n, i :| n in nodes && 0 <= i < VIRTUAL_NODES && p == Place(hash, n, i);
      var j :| 0 <= j < |sorted| && sorted[j] == n;
    }
  }

  method Lay(inOrder: seq<Placement>, sorted: seq<Text>) returns (r: Ring)
    ensures |r.points| == |r.owner| == |inOrder| && r.nodes == sorted
    ensures forall i :: 0 <= i < |inOrder| ==> inOrder[i] == Placement(r.points[i], r.owner[i])
  {
    r := Ring([], [], sorted);
    for k := 0 to |inOrder|
      invariant |r.points| == |r.owner| == k && r.nodes == sorted
      invariant forall i :: 0 <= i < k ==> inOrder[i] == Placement(r.points[i], r.owner[i])
    {
      r := r.(points := r.points + [inOrder[k].point], owner := r.owner + [inOrder[k].node]);
    }
  }

  /** The binary search for the first point at or after h. */
  method Search(points: seq<nat>, h: nat) returns (i: nat)
    requires forall j, k :: 0 <= j <= k < |points| ==> points[j] <= points[k]
    ensures i <= |points| && (forall j :: 0 <= j < i ==> points[j] < h) && forall j :: i <= j < |points| ==> points[j] >= h
  {
    var lo, hi := 0, |points|;
    while lo < hi
      invariant lo <= hi <= |points|
      invariant forall j :: 0 <= j < lo ==> points[j] < h
      invariant forall j :: hi <= j < |points| ==> points[j] >= h
    {
      var mid := (lo + hi) / 2;
      if points[mid] >= h {
        hi := mid;
      } else {
        lo := mid + 1;
      }
    }
    i := lo;
  }

  /** Lookup returns the owner the rule names. */
  method Lookup(r: Ring, hash: Hash, key: Text, ghost nodes: set<Text>) returns (owner: Result<Text, Error>)
    requires Represents(r, hash, nodes)
    ensures Owns(hash, nodes, key, owner)
  {
    if |r.points| == 0 {
      if n :| n in nodes {
        EveryNodeIsPlaced(hash, nodes, n);
      }
      return Err(NoNodes);
    }
    var h := hash(key);
    var i := Search(r.points, h);
    ghost var found := i;
    if i == |r.points| {
      i := 0;
    }
    owner := Ok(r.owner[i]);
    ghost var p := Placement(r.points[i], r.owner[i]);
    forall q | q in Placements(hash, nodes) ensures Clockwise(h, p, q) {
      var j :| 0 <= j < |r.points| && r.points[j] == q.point && r.owner[j] == q.node;
      if j >= i {
        assert PlacementLe(p, Placement(r.points[j], r.owner[j]));
      }
    }
    assert First(h, Placements(hash, nodes), p);
  }

  /** Two rings over the same set, listed in any order and with any repeats, route every key alike. */
  lemma OrderAndRepeatsDoNotMatter(hash: Hash, names: seq<Text>, names': seq<Text>, key: Text,
                                   r: Result<Text, Error>, r': Result<Text, Error>)
    requires forall n :: n in names <==> n in names'
    requires Owns(hash, (set n | n in names), key, r) && Owns(hash, (set n | n in names'), key, r')
    ensures r == r'
  {
    assert (set n | n in names) == (set n | n in names');
    var only := OneOwner(hash, (set n | n in names), key);
  }
}
