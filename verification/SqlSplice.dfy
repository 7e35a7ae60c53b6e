/**
 Splicing the version bump in before a statement's own WHERE (internal/proxy/rewrite.go, rewriteWithVersionBump).

 The two prefix patterns and the pattern for an existing version assignment are parameters. The text is what
 remains after surrounding white space was trimmed.
 */
module SqlSplice {
  import opened Common
  import opened Bytes
  import opened SqlScan

  predicate IsBlank(c: byte) { c == SPACE || c == 9 || c == 10 || c == 13 }

  function TrimRight(s: Text): (r: Text)
    ensures |r| <= |s| && r == s[..|r|] && forall i :: |r| <= i < |s| ==> IsBlank(s[i])
    ensures r != [] ==> !IsBlank(r[|r| - 1])
  {
    if s != [] && IsBlank(s[|s| - 1]) then TrimRight(s[..|s| - 1]) else s
  }

  function Quoted(name: Text): Text { [BACKTICK] + name + [BACKTICK] }

  /** The text put in: a comma, then the column set to itself plus one. */
  function Assignment(name: Text): Text {
    [44, SPACE] + Quoted(name) + [SPACE, 61, SPACE] + Quoted(name) + [SPACE, 43, SPACE, 49, SPACE]
  }

  // ---- what the inserted text says ----

  /** `column` = `from` + increment. */
  datatype Bump = Bump(column: Text, from: Text, increment: nat)

  function Strip(t: Text, prefix: Text): Option<Text> { if prefix <= t then Some(t[|prefix|..]) else None }

  function FirstTick(t: Text): (i: nat)
    ensures i <= |t|
  {
    if t == [] || t[0] == BACKTICK then 0 else 1 + FirstTick(t[1..])
  }

  /** A backticked name, and what follows it. */
  function ReadName(t: Text): Option<(Text, Text)> {
    match Strip(t, [BACKTICK])
    case None => None
    case Some(rest) =>
      var i := FirstTick(rest);
      if i == |rest| then None else Some((rest[..i], rest[i + 1..]))
  }

  /** Reads a comma, an assignment of a column plus a numeral to a column, and a space. */
  function ReadBump(t: Text): Option<Bump> {
    var a := Strip(t, [44, SPACE]);
    if a.None? then None
    else
      var column := ReadName(a.value);
      if column.None? then None else ReadRight(column.value.0, column.value.1)
  }

  function ReadRight(column: Text, t: Text): Option<Bump> {
    var b := Strip(t, [SPACE, 61, SPACE]);
    if b.None? then None
    else
      var from := ReadName(b.value);
      if from.None? then None else ReadIncrement(column, from.value.0, from.value.1)
  }

  function ReadIncrement(column: Text, from: Text, t: Text): Option<Bump> {
    var c := Strip(t, [SPACE, 43, SPACE]);
    if c.None? || |c.value| < 2 || c.value[|c.value| - 1] != SPACE || !AllDigits(c.value[..|c.value| - 1]) then None
    else Some(Bump(column, from, Value(c.value[..|c.value| - 1])))
  }

  lemma {:induction false} FirstTickAfter(name: Text, rest: Text)
    requires BACKTICK !in name
    ensures FirstTick(name + [BACKTICK] + rest) == |name|
  {
    var t := name + [BACKTICK] + rest;
    if name != [] {
      FirstTickAfter(name[1..], rest);
      assert t[1..] == name[1..] + [BACKTICK] + rest && t[0] == name[0];
    }
  }

  lemma QuotedReadsBack(name: Text, rest: Text)
    requires BACKTICK !in name
    ensures ReadName(Quoted(name) + rest) == Some((name, rest))
  {
    var t := Quoted(name) + rest;
    assert t[1..] == name + [BACKTICK] + rest;
    FirstTickAfter(name, rest);
    var u := name + [BACKTICK] + rest;
    assert u[..|name|] == name && u[|name| + 1..] == rest;
  }

  lemma StripFront(prefix: Text, rest: Text)
    ensures Strip(prefix + rest, prefix) == Some(rest)
  {
    assert (prefix + rest)[|prefix|..] == rest;
  }

  /** The inserted text says: the column is set to itself plus one. */
  lemma AssignmentAddsOne(name: Text)
    requires BACKTICK !in name
    ensures ReadBump(Assignment(name)) == Some(Bump(name, name, 1))
  {
    var right := [SPACE, 61, SPACE] + (Quoted(name) + ([SPACE, 43, SPACE] + [49, SPACE]));
    assert Assignment(name) == [44, SPACE] + (Quoted(name) + right);
    StripFront([44, SPACE], Quoted(name) + right);
    QuotedReadsBack(name, right);
    RightReadsBack(name);
  }

  lemma RightReadsBack(name: Text)
    requires BACKTICK !in name
    ensures ReadRight(name, [SPACE, 61, SPACE] + (Quoted(name) + ([SPACE, 43, SPACE] + [49, SPACE]))) == Some(Bump(name, name, 1))
  {
    var tail := [SPACE, 43, SPACE] + [49, SPACE];
    StripFront([SPACE, 61, SPACE], Quoted(name) + tail);
    QuotedReadsBack(name, tail);
    OneReadsBack(name);
  }

  lemma OneReadsBack(name: Text)
    ensures ReadIncrement(name, name, [SPACE, 43, SPACE] + [49, SPACE]) == Some(Bump(name, name, 1))
  {
    StripFront([SPACE, 43, SPACE], [49, SPACE]);
    assert [49, SPACE][..1] == [49] && [49][..0] == [];
  }

  // ---- lexing a prefix does not depend on what follows it ----

  /** Nothing at m can change how the byte before it is read. */
  predicate Tame(q: Text, m: nat) {
    m < |q| ==> !IsQuote(q[m]) && q[m] != DASH && q[m] != STAR
  }

  ghost predicate Agree(q: Text, q': Text, m: nat) {
    m <= |q| && m <= |q'| && forall i :: 0 <= i < m ==> q[i] == q'[i]
  }

  lemma {:induction false} LiteralLocal(q: Text, q': Text, m: nat, i: nat, quote: byte)
    requires Agree(q, q', m) && Tame(q', m) && IsQuote(quote)
    requires LiteralEnd(q, i, quote).Some? && LiteralEnd(q, i, quote).value <= m
    ensures LiteralEnd(q', i, quote) == LiteralEnd(q, i, quote)
    decreases |q| - i
  {
    if q[i] == BACKSLASH && quote != BACKTICK {
      LiteralLocal(q, q', m, i + 2, quote);
    } else if q[i] == quote {
      if i + 1 < |q| && q[i + 1] == quote {
        LiteralLocal(q, q', m, i + 2, quote);
      }
    } else {
      LiteralLocal(q, q', m, i + 1, quote);
    }
  }

  lemma {:induction false} CodeLocal(q: Text, q': Text, m: nat, i: nat)
    requires Agree(q, q', m) && Tame(q', m) && Code(q, i, m).Some?
    ensures Code(q', i, m) == Code(q, i, m)
    decreases |q| - i
  {
    if i < m {
      var j := Step(q, i).value;
      if IsQuote(q[i]) {
        LiteralLocal(q, q', m, i + 1, q[i]);
      }
      CodeLocal(q, q', m, j);
    }
  }

  // ---- lexing a suffix does not depend on what came before it ----

  function Shift(far: nat, code: seq<nat>): (r: seq<nat>)
    ensures |r| == |code| && forall k :: 0 <= k < |code| ==> r[k] == far + code[k]
  {
    seq(|code|, k requires 0 <= k < |code| => far + code[k])
  }

  lemma {:induction false} LiteralShift(x: Text, t: Text, i: nat, quote: byte)
    ensures LiteralEnd(x + t, |x| + i, quote)
            == match LiteralEnd(t, i, quote) case None => None case Some(j) => Some(|x| + j)
    decreases |t| - i
  {
    if i < |t| {
      assert (x + t)[|x| + i] == t[i];
      LiteralShift(x, t, i + 1, quote);
      LiteralShift(x, t, i + 2, quote);
    }
  }

  lemma StepShift(x: Text, t: Text, i: nat)
    requires i < |t|
    ensures Step(x + t, |x| + i) == match Step(t, i) case None => None case Some(j) => Some(|x| + j)
  {
    var q := x + t;
    assert q[|x| + i] == t[i] && (i + 1 < |t| ==> q[|x| + i + 1] == t[i + 1]);
    LiteralShift(x, t, i + 1, t[i]);
  }

  lemma ShiftConcat(far: nat, a: seq<nat>, b: seq<nat>)
    ensures Shift(far, a + b) == Shift(far, a) + Shift(far, b)
  {
  }

  function Shifted(far: nat, r: Option<seq<nat>>): Option<seq<nat>> {
    if r.Some? then Some(Shift(far, r.value)) else None
  }

  lemma {:induction false} CodeShift(x: Text, t: Text, i: nat)
    requires i <= |t|
    ensures Code(x + t, |x| + i, |x + t|) == Shifted(|x|, Code(t, i, |t|))
    decreases |t| - i
  {
    if i < |t| {
      StepShift(x, t, i);
      if Step(t, i).Some? {
        var j := Step(t, i).value;
        CodeShift(x, t, j);
        if Code(t, j, |t|).Some? {
          ShiftConcat(|x|, if IsQuote(t[i]) then [] else [i], Code(t, j, |t|).value);
          assert Shift(|x|, []) == [] && Shift(|x|, [i]) == [|x| + i];
        }
      }
    }
  }

  lemma {:induction false} DepthShift(x: Text, t: Text, code: seq<nat>)
    requires forall k :: 0 <= k < |code| ==> code[k] < |t|
    ensures Depth(x + t, Shift(|x|, code)) == Depth(t, code)
    decreases code
  {
    if code != [] {
      var init := code[..|code| - 1];
      DepthShift(x, t, init);
      assert Shift(|x|, code)[..|code| - 1] == Shift(|x|, init);
    }
  }

  /** A word is the same word after a prefix that does not end in an identifier byte. */
  lemma WhereShift(x: Text, t: Text, code: seq<nat>, d: int, n: nat)
    requires n < |code| && forall k :: 0 <= k < |code| ==> code[k] < |t|
    requires x != [] ==> !IsIdentByte(x[|x| - 1])
    ensures WhereAt(x + t, Shift(|x|, code), d, n) == WhereAt(t, code, d, n)
  {
    DepthShift(x, t, code[..n]);
    assert Shift(|x|, code)[..n] == Shift(|x|, code[..n]);
    WordShift(x, t, code[n]);
  }

  lemma WordShift(x: Text, t: Text, i: nat)
    requires i < |t| && (x != [] ==> !IsIdentByte(x[|x| - 1]))
    ensures IsWhereAt(x + t, |x| + i) == IsWhereAt(t, i)
  {
    var q, p := x + t, |x| + i;
    if i + 5 <= |t| {
      assert q[p] == t[i] && q[p + 1] == t[i + 1] && q[p + 2] == t[i + 2] && q[p + 3] == t[i + 3] && q[p + 4] == t[i + 4];
      assert i + 5 < |t| ==> q[p + 5] == t[i + 5];
      assert i > 0 ==> q[p - 1] == t[i - 1];
      assert i == 0 && x != [] ==> q[p - 1] == x[|x| - 1];
    }
  }

  // ---- the place where the prefix is cut ----

  /** White space before a place outside literals is outside literals. */
  lemma {:induction false} BlankBoundary(q: Text, i: nat, m: nat, w: nat)
    requires i <= m <= w <= |q| && Code(q, i, w).Some? && forall k :: m <= k < w ==> IsBlank(q[k])
    ensures Code(q, i, m).Some?
    decreases |q| - i
  {
    if i < m {
      BlankBoundary(q, Step(q, i).value, m, w);
    }
  }

  /** A word of the kept prefix stands alone before the comma exactly when it did before the white space. */
  lemma WordLocal(q: Text, q': Text, m: nat, w: nat, p: nat)
    requires Agree(q, q', m) && m < |q'| && q'[m] == 44 && p < m <= w < |q| && IsWhereAt(q, w)
    requires forall k :: m <= k < w ==> IsBlank(q[k])
    ensures IsWhereAt(q', p) == IsWhereAt(q, p)
  {
    if p + 5 <= m {
      assert p + 5 == m == w ==> q[p + 4] == q[w - 1];
    } else {
      assert Lower(q'[m]) == 44;
      assert IsBlank(q[m]) || Lower(q[m]) == 119;
    }
  }

  lemma {:induction false} DepthLocal(q: Text, q': Text, code: seq<nat>)
    requires forall k :: 0 <= k < |code| ==> At(q, code[k]) == At(q', code[k])
    ensures Depth(q', code) == Depth(q, code)
    decreases code
  {
    if code != [] {
      DepthLocal(q, q', code[..|code| - 1]);
    }
  }

  // ---- the inserted text ----

  /** Bytes the lexer steps over one by one. */
  predicate Plain(c: byte) { !IsQuote(c) && c != 59 && c != 35 && c != DASH && c != 47 }

  lemma {:induction false} PlainRun(q: Text, i: nat, j: nat)
    requires i <= j <= |q| && forall k :: i <= k < j ==> Plain(q[k])
    ensures Code(q, i, j).Some? && forall k :: 0 <= k < |Code(q, i, j).value| ==> i <= Code(q, i, j).value[k] < j
    decreases j - i
  {
    if i < j {
      PlainRun(q, i + 1, j);
    }
  }

  lemma {:induction false} NameEnds(q: Text, i: nat, j: nat)
    requires i <= j < |q| && q[j] == BACKTICK && (j + 1 < |q| ==> q[j + 1] != BACKTICK)
    requires forall k :: i <= k < j ==> q[k] != BACKTICK
    ensures LiteralEnd(q, i, BACKTICK) == Some(j + 1)
    decreases j - i
  {
    if i < j {
      NameEnds(q, i + 1, j);
    }
  }

  /** Bytes that are no parenthesis, no letter and no placeholder. */
  predicate Inert(c: byte) { c == 44 || c == SPACE || c == 61 || c == 43 || c == 49 }

  /** From i to j the text lexes to inert code only. */
  ghost predicate InertFrom(q: Text, i: nat, j: nat) {
    j <= |q| && Code(q, i, j).Some? && var code := Code(q, i, j).value; forall k :: 0 <= k < |code| ==> Inert(At(q, code[k]))
  }

  lemma InertChain(q: Text, i: nat, p: nat, r: nat)
    requires InertFrom(q, i, p) && InertFrom(q, p, r)
    ensures InertFrom(q, i, r)
  {
    Chain(q, i, p, r);
  }

  lemma PieceRun(q: Text, x: Text, piece: Text, t: Text)
    requires q == x + piece + t && forall k :: 0 <= k < |piece| ==> Inert(piece[k])
    ensures InertFrom(q, |x|, |x| + |piece|)
  {
    forall k | |x| <= k < |x| + |piece| ensures Inert(q[k]) {
      assert q[k] == piece[k - |x|];
    }
    PlainRun(q, |x|, |x| + |piece|);
  }

  /** A quoted name is one step, with no code bytes in it. */
  lemma NameRun(q: Text, x: Text, name: Text, t: Text)
    requires q == x + Quoted(name) + t && BACKTICK !in name && (t != [] ==> t[0] != BACKTICK)
    ensures InertFrom(q, |x|, |x| + |Quoted(name)|)
  {
    var i, j := |x|, |x| + |name| + 1;
    forall k | i < k < j ensures q[k] != BACKTICK {
      assert q[k] == name[k - i - 1];
    }
    assert q[i] == BACKTICK && q[j] == BACKTICK;
    assert t != [] ==> q[j + 1] == t[0];
    NameEnds(q, i + 1, j);
    assert Step(q, i) == Some(j + 1);
  }

  lemma TermRun(q: Text, x: Text, piece: Text, name: Text, t: Text)
    requires q == x + (piece + Quoted(name)) + t && BACKTICK !in name && (t != [] ==> t[0] != BACKTICK)
    requires forall k :: 0 <= k < |piece| ==> Inert(piece[k])
    ensures InertFrom(q, |x|, |x| + |piece| + |Quoted(name)|)
  {
    assert q == x + piece + (Quoted(name) + t) && q == x + piece + Quoted(name) + t;
    PieceRun(q, x, piece, Quoted(name) + t);
    NameRun(q, x + piece, name, t);
    InertChain(q, |x|, |x + piece|, |x| + |piece| + |Quoted(name)|);
  }

  lemma AssignmentRun(q: Text, x: Text, name: Text, t: Text)
    requires q == x + Assignment(name) + t && BACKTICK !in name
    ensures InertFrom(q, |x|, |x| + |Assignment(name)|)
  {
    var a, b, c := [44, SPACE], [SPACE, 61, SPACE], [SPACE, 43, SPACE, 49, SPACE];
    var u, v := a + Quoted(name), b + Quoted(name);
    assert Assignment(name) == u + v + c;
    Regroup(x, u, v, c, t);
    TermRun(q, x, a, name, v + (c + t));
    TermRun(q, x + u, b, name, c + t);
    PieceRun(q, x + u + v, c, t);
    InertChain(q, |x|, |x + u|, |x + u + v|);
    InertChain(q, |x|, |x + u + v|, |x| + |Assignment(name)|);
  }

  lemma Regroup(x: Text, u: Text, v: Text, c: Text, t: Text)
    ensures var q := x + (u + v + c) + t;
            q == x + u + (v + (c + t)) && q == x + u + v + (c + t) && q == x + u + v + c + t
  {
  }

  // ---- the statement, cut before its own WHERE ----

  lemma OnlyWhereShift(x: Text, t: Text, code: seq<nat>, d: int, n: nat)
    requires forall k :: 0 <= k < |code| ==> code[k] < |t|
    requires x != [] ==> !IsIdentByte(x[|x| - 1])
    ensures OnlyWhere(x + t, Shift(|x|, code), d, n) == OnlyWhere(t, code, d, n)
  {
    forall k: nat | k < |code| ensures WhereAt(x + t, Shift(|x|, code), d, k) == WhereAt(t, code, d, k) {
      WhereShift(x, t, code, d, k);
    }
  }

  /** The code of x + t in three pieces: up to m, from there to the end of x, and t's own, moved. */
  lemma JoinCode(q: Text, x: Text, t: Text, m: nat)
    requires q == x + t && m <= |x| && Code(q, 0, m).Some? && Code(q, m, |x|).Some?
    ensures Code(q, 0, |q|) == After(Code(q, 0, m).value + Code(q, m, |x|).value, Shifted(|x|, Code(t, 0, |t|)))
  {
    Chain(q, 0, m, |x|);
    JoinTail(q, x, t, Code(q, 0, m).value + Code(q, m, |x|).value);
  }

  lemma JoinTail(q: Text, x: Text, t: Text, front: seq<nat>)
    requires q == x + t && Code(q, 0, |x|) == Some(front)
    ensures Code(q, 0, |q|) == After(front, Shifted(|x|, Code(t, 0, |t|)))
  {
    Chain(q, 0, |x|, |q|);
    CodeShift(x, t, 0);
  }

  /** The statement x + t, its own WHERE at the start of t, and x blank from m on. */
  ghost predicate Cut(q: Text, x: Text, t: Text, m: nat) {
    && q == x + t && m <= |x| && t != [] && Own(q, |x|) && forall k :: m <= k < |x| ==> IsBlank(q[k])
  }

  lemma OwnIsCode(q: Text, w: nat)
    requires Own(q, w)
    ensures w < |q| && IsWhereAt(q, w) && Code(q, 0, w).Some?
  {
    var code := Code(q, 0, |q|).value;
    var n: nat :| OnlyWhere(q, code, 0, n) && code[n] == w;
    assert w in code;
    CodeIsReached(q, 0, |q|, w);
  }

  /** Where a statement is cut, its code comes in three pieces. */
  lemma CutCode(q: Text, x: Text, t: Text, m: nat) returns (front: seq<nat>, blank: seq<nat>, tail: seq<nat>)
    requires Cut(q, x, t, m)
    ensures Code(q, 0, m) == Some(front) && Code(q, m, |x|) == Some(blank) && Code(t, 0, |t|) == Some(tail)
    ensures Code(q, 0, |q|) == Some(front + blank + Shift(|x|, tail)) && IsWhereAt(q, |x|)
  {
    OwnIsCode(q, |x|);
    BlankBoundary(q, 0, m, |x|);
    Chain(q, 0, m, |x|);
    JoinCode(q, x, t, m);
    front, blank, tail := Code(q, 0, m).value, Code(q, m, |x|).value, Code(t, 0, |t|).value;
  }

  lemma BlankIsDull(q: Text, m: nat, w: nat, blank: seq<nat>)
    requires w <= |q| && Code(q, m, w) == Some(blank) && forall k :: m <= k < w ==> IsBlank(q[k])
    ensures forall k :: 0 <= k < |blank| ==> Dull(At(q, blank[k])) && At(q, blank[k]) != PLACEHOLDER
  {
  }

  /** The tail of a statement holds its only WHERE, at its start; nothing before the cut does. */
  lemma CutWheres(q: Text, x: Text, t: Text, m: nat, front: seq<nat>, blank: seq<nat>, tail: seq<nat>) returns (n: nat)
    requires Cut(q, x, t, m) && Code(q, 0, m) == Some(front) && Code(q, m, |x|) == Some(blank)
    requires Code(t, 0, |t|) == Some(tail) && Code(q, 0, |q|) == Some(front + blank + Shift(|x|, tail)) && IsWhereAt(q, |x|)
    ensures NoWhere(q, front, 0) && n < |tail| && OnlyWhere(t, tail, Depth(q, front), n) && tail[n] == 0
  {
    BlankIsDull(q, m, |x|, blank);
    n := OnlyAfter(q, front, blank, Shift(|x|, tail), |x|);
    assert x != [] ==> q[|x| - 1] == x[|x| - 1];
    OnlyWhereShift(x, t, tail, Depth(q, front), n);
  }

  /** A WHERE beyond the first two pieces of code, the second of them dull, is the third's alone. */
  lemma OnlyAfter(q: Text, front: seq<nat>, blank: seq<nat>, after: seq<nat>, w: nat) returns (n: nat)
    requires exists at: nat :: OnlyWhere(q, front + blank + after, 0, at) && (front + blank + after)[at] == w
    requires forall k :: 0 <= k < |front| ==> front[k] < w
    requires forall k :: 0 <= k < |blank| ==> blank[k] < w && Dull(At(q, blank[k]))
    ensures NoWhere(q, front, 0) && n < |after| && OnlyWhere(q, after, Depth(q, front), n) && after[n] == w
  {
    var before, d := front + blank, Depth(q, front);
    var at: nat :| OnlyWhere(q, before + after, 0, at) && (before + after)[at] == w;
    NotBefore(before, after, w, at);
    n := at - |before|;
    DullCode(q, blank, d);
    DepthConcat(q, front, blank);
    OnlyWhereBack(q, before, after, before + after, 0, d, n);
    NoWhereConcat(q, front, blank, before, 0, d);
  }

  lemma NotBefore(before: seq<nat>, after: seq<nat>, w: nat, at: nat)
    requires at < |before| + |after| && (before + after)[at] == w && forall k :: 0 <= k < |before| ==> before[k] < w
    ensures at >= |before| && after[at - |before|] == w
  {
  }

  /** The kept prefix has no WHERE in the new text either, and leaves as many parentheses open. */
  lemma FrontStays(q: Text, q': Text, m: nat, w: nat, front: seq<nat>)
    requires Agree(q, q', m) && m < |q'| && q'[m] == 44 && m <= w < |q| && IsWhereAt(q, w)
    requires forall k :: m <= k < w ==> IsBlank(q[k])
    requires NoWhere(q, front, 0) && forall k :: 0 <= k < |front| ==> front[k] < m
    ensures NoWhere(q', front, 0) && Depth(q', front) == Depth(q, front)
  {
    DepthLocal(q, q', front);
    forall n: nat | n < |front| ensures !WhereAt(q', front, 0, n) {
      assert !WhereAt(q, front, 0, n);
      DepthLocal(q, q', front[..n]);
      WordLocal(q, q', m, w, front[n]);
    }
  }

  /** The new text: y, which is x up to m and then the assignment, and the same tail. */
  ghost predicate Splice(q': Text, x: Text, t: Text, m: nat, name: Text, y: Text) {
    m <= |x| && BACKTICK !in name && y == x[..m] + Assignment(name) && q' == y + t
  }

  lemma SpliceStart(q: Text, q': Text, x: Text, t: Text, m: nat, name: Text, y: Text)
    requires q == x + t && Splice(q', x, t, m, name, y)
    ensures Agree(q, q', m) && m < |q'| && q'[m] == 44 && y[|y| - 1] == SPACE
    ensures m < |y| && q' == x[..m] + Assignment(name) + t
  {
    assert Assignment(name)[0] == 44 && q'[m] == y[m] == 44;
  }

  /** The code of the spliced text: the same front, inert code, the same tail moved. */
  lemma SplicedCode(q: Text, q': Text, x: Text, t: Text, m: nat, name: Text, y: Text) returns (added: seq<nat>)
    requires q == x + t && m <= |q| && Code(q, 0, m).Some? && Splice(q', x, t, m, name, y)
    ensures Code(q', 0, |q'|) == After(Code(q, 0, m).value + added, Shifted(|y|, Code(t, 0, |t|)))
    ensures forall k :: 0 <= k < |added| ==> Inert(At(q', added[k]))
  {
    SpliceStart(q, q', x, t, m, name, y);
    CodeLocal(q, q', m, 0);
    AssignmentRun(q', x[..m], name, t);
    JoinCode(q', y, t, m);
    added := Code(q', m, |y|).value;
  }

  /** Scanning the spliced text again finds the same WHERE, at the start of the same tail. */
  lemma SplicedOwn(q: Text, q': Text, x: Text, t: Text, m: nat, name: Text, y: Text)
    requires Cut(q, x, t, m) && Splice(q', x, t, m, name, y)
    ensures Own(q', |y|)
  {
    var front, blank, tail := CutCode(q, x, t, m);
    var n := CutWheres(q, x, t, m, front, blank, tail);
    var added := SplicedCode(q, q', x, t, m, name, y);
    SpliceStart(q, q', x, t, m, name, y);
    FrontStays(q, q', m, |x|, front);
    OnlyWhereShift(y, t, tail, Depth(q, front), n);
    var both := InertAfter(q', front, added);
    OnlyWhereBack(q', both, Shift(|y|, tail), both + Shift(|y|, tail), 0, Depth(q, front), n);
    OwnedAt(q', both, Shift(|y|, tail), n);
  }

  lemma OwnedAt(q: Text, before: seq<nat>, after: seq<nat>, n: nat)
    requires n < |after| && Code(q, 0, |q|) == Some(before + after) && OnlyWhere(q, before + after, 0, |before| + n)
    ensures Own(q, after[n])
  {
    assert (before + after)[|before| + n] == after[n];
  }

  lemma InertAfter(q: Text, front: seq<nat>, added: seq<nat>) returns (both: seq<nat>)
    requires NoWhere(q, front, 0) && forall k :: 0 <= k < |added| ==> Inert(At(q, added[k]))
    ensures both == front + added && NoWhere(q, both, 0) && Depth(q, both) == Depth(q, front)
  {
    both := front + added;
    DullCode(q, added, Depth(q, front));
    NoWhereConcat(q, front, added, both, 0, Depth(q, front));
    DepthConcat(q, front, added);
  }

  // ---- placeholders ----

  /** The placeholders among code bytes. */
  ghost function Marks(q: Text, code: seq<nat>): seq<nat> {
    if code == [] then []
    else
      var init, p := code[..|code| - 1], code[|code| - 1];
      Marks(q, init) + (if At(q, p) == PLACEHOLDER then [p] else [])
  }

  lemma {:induction false} MarksConcat(q: Text, a: seq<nat>, b: seq<nat>)
    ensures Marks(q, a + b) == Marks(q, a) + Marks(q, b)
    decreases b
  {
    if b == [] {
      assert a + b == a;
    } else {
      MarksConcat(q, a, b[..|b| - 1]);
      assert (a + b)[..|a + b| - 1] == a + b[..|b| - 1];
    }
  }

  lemma {:induction false} NoMarks(q: Text, code: seq<nat>)
    requires forall k :: 0 <= k < |code| ==> At(q, code[k]) != PLACEHOLDER
    ensures Marks(q, code) == []
    decreases code
  {
    if code != [] {
      NoMarks(q, code[..|code| - 1]);
    }
  }

  lemma {:induction false} MarksLocal(q: Text, q': Text, code: seq<nat>, m: nat)
    requires Agree(q, q', m) && forall k :: 0 <= k < |code| ==> code[k] < m
    ensures Marks(q', code) == Marks(q, code) && forall k :: 0 <= k < |Marks(q, code)| ==> Marks(q, code)[k] < m
    decreases code
  {
    if code != [] {
      MarksLocal(q, q', code[..|code| - 1], m);
    }
  }

  lemma {:induction false} MarksShift(x: Text, t: Text, code: seq<nat>)
    requires forall k :: 0 <= k < |code| ==> code[k] < |t|
    ensures Marks(x + t, Shift(|x|, code)) == Shift(|x|, Marks(t, code))
    decreases code
  {
    if code != [] {
      var init := code[..|code| - 1];
      MarksShift(x, t, init);
      assert Shift(|x|, code)[..|code| - 1] == Shift(|x|, init);
      ShiftConcat(|x|, Marks(t, init), if At(t, code[|code| - 1]) == PLACEHOLDER then [code[|code| - 1]] else []);
    }
  }

  ghost function Placeholders(q: Text): seq<nat> {
    if Code(q, 0, |q|).Some? then Marks(q, Code(q, 0, |q|).value) else []
  }

  /** Each placeholder is still there, in the same order: those before m in place, the others moved with the tail. */
  ghost predicate Moved(was: seq<nat>, now: seq<nat>, m: nat, w: nat, w': nat) {
    |now| == |was| && forall k :: 0 <= k < |was| ==>
      (was[k] < m && now[k] == was[k]) || (was[k] >= w && now[k] - w' == was[k] - w)
  }

  lemma SplicedPlaceholders(q: Text, q': Text, x: Text, t: Text, m: nat, name: Text, y: Text)
    requires Cut(q, x, t, m) && Splice(q', x, t, m, name, y)
    ensures Moved(Placeholders(q), Placeholders(q'), m, |x|, |y|)
  {
    var front, blank, tail := CutCode(q, x, t, m);
    var added := SplicedCode(q, q', x, t, m, name, y);
    SpliceStart(q, q', x, t, m, name, y);
    BlankIsDull(q, m, |x|, blank);
    PlaceholdersOf(q, front, blank, x, t, tail);
    PlaceholdersOf(q', front, added, y, t, tail);
    MarksLocal(q, q', front, m);
  }

  lemma PlaceholdersOf(q: Text, front: seq<nat>, middle: seq<nat>, x: Text, t: Text, tail: seq<nat>)
    requires q == x + t && Code(q, 0, |q|) == Some(front + middle + Shift(|x|, tail))
    requires forall k :: 0 <= k < |middle| ==> At(q, middle[k]) != PLACEHOLDER
    requires forall k :: 0 <= k < |tail| ==> tail[k] < |t|
    ensures Placeholders(q) == Marks(q, front) + Shift(|x|, Marks(t, tail))
  {
    MarksConcat(q, front + middle, Shift(|x|, tail));
    MarksConcat(q, front, middle);
    NoMarks(q, middle);
    MarksShift(x, t, tail);
    assert Marks(q, front) + [] == Marks(q, front);
  }

  // ---- the rewrite ----

  type Pattern = Text -> bool

  datatype Rewrite = Refused | AsWritten | Bumped(text: Text)

  /**
   text is stmt with its version bumped: the white space before its own WHERE gave way to the assignment and
   nothing else changed; it scans again to the same WHERE, and its placeholders are the original's, in order.
   */
  ghost predicate IsBump(stmt: Text, name: Text, text: Text, m: nat, w: nat) {
    && m <= w < |stmt| && Own(stmt, w) && (forall k :: m <= k < w ==> IsBlank(stmt[k]))
    && (m > 0 ==> !IsBlank(stmt[m - 1]))
    && text == stmt[..m] + Assignment(name) + stmt[w..]
    && Own(text, m + |Assignment(name)|)
    && Moved(Placeholders(stmt), Placeholders(text), m, w, m + |Assignment(name)|)
  }

  lemma Bumps(stmt: Text, name: Text, w: nat)
    requires BACKTICK !in name && Own(stmt, w)
    ensures w < |stmt|
    ensures var kept := TrimRight(stmt[..w]);
            IsBump(stmt, name, kept + Assignment(name) + stmt[w..], |kept|, w)
  {
    OwnIsCode(stmt, w);
    TrimKeeps(stmt, w);
    var kept := TrimRight(stmt[..w]);
    BumpsAt(stmt, stmt[..w], stmt[w..], |kept|, name);
  }

  lemma TrimKeeps(stmt: Text, w: nat)
    requires w < |stmt|
    ensures var m := |TrimRight(stmt[..w])|;
            && m <= w && TrimRight(stmt[..w]) == stmt[..m] == stmt[..w][..m] && stmt == stmt[..w] + stmt[w..]
            && (forall k :: m <= k < w ==> IsBlank(stmt[k])) && (m > 0 ==> !IsBlank(stmt[m - 1]))
  {
  }

  lemma BumpsAt(stmt: Text, x: Text, t: Text, m: nat, name: Text)
    requires Cut(stmt, x, t, m) && BACKTICK !in name
    ensures var text := x[..m] + Assignment(name) + t;
            Own(text, m + |Assignment(name)|) && Moved(Placeholders(stmt), Placeholders(text), m, |x|, m + |Assignment(name)|)
  {
    var y := x[..m] + Assignment(name);
    SplicedOwn(stmt, y + t, x, t, m, name, y);
    SplicedPlaceholders(stmt, y + t, x, t, m, name, y);
  }

  /**
   rewriteWithVersionBump, of a statement less one closing semicolon. It is bumped exactly when it is an update
   with a WHERE of its own and does not already assign the version before it.
   */
  method RewriteWithVersionBump(isDelete: Pattern, isUpdate: Pattern, assigns: Pattern, name: Text, q: Text)
      returns (r: Rewrite, ghost m: nat, w: nat)
    requires BACKTICK !in name
    ensures isDelete(WithoutSemicolon(q)) ==> r == AsWritten
    ensures !isDelete(WithoutSemicolon(q)) && !isUpdate(WithoutSemicolon(q)) ==> r == Refused
    ensures !isDelete(WithoutSemicolon(q)) && isUpdate(WithoutSemicolon(q)) ==>
              if r.Refused? then forall v: nat :: !Own(WithoutSemicolon(q), v)
              else Own(WithoutSemicolon(q), w) && w < |WithoutSemicolon(q)|
                   && (r.AsWritten? <==> assigns(WithoutSemicolon(q)[..w]))
    ensures r.Bumped? ==> IsBump(WithoutSemicolon(q), name, r.text, m, w)
    ensures ReadBump(Assignment(name)) == Some(Bump(name, name, 1))
  {
    AssignmentAddsOne(name);
    var stmt := WithoutSemicolon(q);
    m, w := 0, 0;
    if isDelete(stmt) {
      return AsWritten, m, w;
    }
    if !isUpdate(stmt) {
      return Refused, m, w;
    }
    var found := TopLevelWhere(stmt);
    if found.None? {
      return Refused, m, w;
    }
    w := found.value;
    Bumps(stmt, name, w);
    var sets := stmt[..w];
    if assigns(sets) {
      return AsWritten, m, w;
    }
    m := |TrimRight(sets)|;
    r := Bumped(TrimRight(sets) + Assignment(name) + stmt[w..]);
  }

  function WithoutSemicolon(q: Text): (r: Text)
    ensures q == r + [59] || (q == r && (q == [] || q[|q| - 1] != 59))
  {
    if q != [] && q[|q| - 1] == 59 then q[..|q| - 1] else q
  }
}
