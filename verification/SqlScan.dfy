/**
 Finding a statement's own WHERE (internal/proxy/rewrite.go, topLevelWhere).

 The scanner is compared with a lexer that first finds which bytes lie outside all literals, and only then looks
 at parentheses and keywords among them.
 */
module SqlScan {
  import opened Common
  import opened Bytes

  const BACKSLASH: byte := 92
  const BACKTICK: byte := 96
  const DASH: byte := 45
  const STAR: byte := 42
  const SPACE: byte := 32
  const PLACEHOLDER: byte := 63

  /** A single quote, a double quote or a backtick. */
  predicate IsQuote(c: byte) { c == 39 || c == 34 || c == BACKTICK }

  predicate IsIdentByte(c: byte) { c == 95 || c == 36 || IsDigit(c) || 97 <= c <= 122 || 65 <= c <= 90 }

  function Lower(c: byte): byte { if 65 <= c <= 90 then c + 32 else c }

  /** The word "where", in any case, standing alone. */
  predicate IsWhereAt(q: Text, i: nat) {
    && i + 5 <= |q|
    && Lower(q[i]) == 119 && Lower(q[i + 1]) == 104 && Lower(q[i + 2]) == 101 && Lower(q[i + 3]) == 114
    && Lower(q[i + 4]) == 101
    && (i > 0 ==> !IsIdentByte(q[i - 1])) && (i + 5 < |q| ==> !IsIdentByte(q[i + 5]))
  }

  /** A semicolon or the start of a comment. */
  predicate Forbidden(q: Text, i: nat)
    requires i < |q|
  {
    || q[i] == 59 || q[i] == 35
    || (q[i] == DASH && i + 1 < |q| && q[i + 1] == DASH)
    || (q[i] == 47 && i + 1 < |q| && q[i + 1] == STAR)
  }

  /** What ends a statement or starts a comment, as text: ";", "#", "--" and an opening of a block. */
  lemma ForbiddenIsText(q: Text, i: nat)
    requires i < |q|
    ensures Forbidden(q, i) <==> [59] <= q[i..] || [35] <= q[i..] || [DASH, DASH] <= q[i..] || [47, STAR] <= q[i..]
  {
  }

  /** The keyword as a word: five letters in either case, with no identifier byte on either side. */
  lemma WhereIsAWord(q: Text, i: nat)
    requires i + 5 <= |q|
    ensures IsWhereAt(q, i) <==>
              && q[i] in [119, 87] && q[i + 1] in [104, 72] && q[i + 2] in [101, 69] && q[i + 3] in [114, 82] && q[i + 4] in [101, 69]
              && (i == 0 || !IsIdentByte(q[i - 1])) && (i + 5 == |q| || !IsIdentByte(q[i + 5]))
  {
  }

  // ---- the lexer ----

  /** Where the literal that i is inside ends: one past its closing quote. None if it never does. */
  function LiteralEnd(q: Text, i: nat, quote: byte): (r: Option<nat>)
    ensures r.Some? ==> i < r.value <= |q| && q[r.value - 1] == quote
    decreases |q| - i
  {
    if i >= |q| then None
    else if q[i] == BACKSLASH && quote != BACKTICK then LiteralEnd(q, i + 2, quote)
    else if q[i] == quote then
      if i + 1 < |q| && q[i + 1] == quote then LiteralEnd(q, i + 2, quote) else Some(i + 1)
    else LiteralEnd(q, i + 1, quote)
  }

  /** From one place outside literals to the next. */
  function Step(q: Text, i: nat): (r: Option<nat>)
    requires i < |q|
    ensures r.Some? ==> i < r.value <= |q|
  {
    if IsQuote(q[i]) then LiteralEnd(q, i + 1, q[i]) else if Forbidden(q, i) then None else Some(i + 1)
  }

  function After(front: seq<nat>, r: Option<seq<nat>>): Option<seq<nat>> {
    if r.Some? then Some(front + r.value) else None
  }

  /** The bytes from i to p that are outside literals; None unless p is reached, with nothing forbidden on the way. */
  function Code(q: Text, i: nat, p: nat): (r: Option<seq<nat>>)
    requires p <= |q|
    ensures r.Some? ==> i <= p && forall k :: 0 <= k < |r.value| ==> i <= r.value[k] < p
    decreases |q| - i
  {
    if i == p then Some([])
    else if i > p then None
    else match Step(q, i)
      case None => None
      case Some(j) => After(if IsQuote(q[i]) then [] else [i], Code(q, j, p))
  }

  function Delta(c: byte): int { if c == 40 then 1 else if c == 41 then -1 else 0 }

  function At(q: Text, p: nat): byte { if p < |q| then q[p] else 0 }

  ghost function Depth(q: Text, code: seq<nat>): int {
    if code == [] then 0 else Depth(q, code[..|code| - 1]) + Delta(At(q, code[|code| - 1]))
  }

  /** The n-th code byte starts a standalone WHERE inside no parenthesis, d open ones coming before the code. */
  ghost predicate WhereAt(q: Text, code: seq<nat>, d: int, n: nat) {
    n < |code| && d + Depth(q, code[..n]) == 0 && IsWhereAt(q, code[n])
  }

  ghost predicate NoWhere(q: Text, code: seq<nat>, d: int) {
    forall n: nat :: n < |code| ==> !WhereAt(q, code, d, n)
  }

  ghost predicate OnlyWhere(q: Text, code: seq<nat>, d: int, n: nat) {
    WhereAt(q, code, d, n) && forall m: nat :: m < |code| && m != n ==> !WhereAt(q, code, d, m)
  }

  /** w is the statement's own WHERE: the statement lexes, and of its code bytes only w starts one at top level. */
  ghost predicate Own(q: Text, w: nat) {
    Code(q, 0, |q|).Some? &&
    var code := Code(q, 0, |q|).value;
    exists n: nat :: OnlyWhere(q, code, 0, n) && code[n] == w
  }

  /** The answer r is right: r names the statement's own WHERE, or there is none. */
  ghost predicate Answers(q: Text, r: Option<nat>) { forall w: nat :: Own(q, w) <==> r == Some(w) }

  // ---- lexing in pieces ----

  lemma AfterTwice(a: seq<nat>, b: seq<nat>, r: Option<seq<nat>>)
    ensures After(a, After(b, r)) == After(a + b, r)
  {
    if r.Some? {
      assert a + (b + r.value) == a + b + r.value;
    }
  }

  lemma {:induction false} Chain(q: Text, i: nat, p: nat, r: nat)
    requires p <= r <= |q| && Code(q, i, p).Some?
    ensures Code(q, i, r) == After(Code(q, i, p).value, Code(q, p, r))
    decreases |q| - i
  {
    if i == p {
      assert Code(q, p, r).Some? ==> [] + Code(q, p, r).value == Code(q, p, r).value;
    } else {
      var j := Step(q, i).value;
      Chain(q, j, p, r);
      AfterTwice(if IsQuote(q[i]) then [] else [i], Code(q, j, p).value, Code(q, p, r));
    }
  }

  lemma {:induction false} DepthConcat(q: Text, a: seq<nat>, b: seq<nat>)
    ensures Depth(q, a + b) == Depth(q, a) + Depth(q, b)
    decreases b
  {
    if b == [] {
      assert a + b == a;
    } else {
      DepthConcat(q, a, b[..|b| - 1]);
      assert (a + b)[..|a + b| - 1] == a + b[..|b| - 1];
    }
  }

  /** c is a then b, and e is the depth at which b begins. */
  ghost predicate Joins(q: Text, a: seq<nat>, b: seq<nat>, c: seq<nat>, d: int, e: int) {
    c == a + b && e == d + Depth(q, a)
  }

  lemma WhereInConcat(q: Text, a: seq<nat>, b: seq<nat>, c: seq<nat>, d: int, e: int, n: nat)
    requires Joins(q, a, b, c, d, e) && n < |c|
    ensures WhereAt(q, c, d, n) <==> if n < |a| then WhereAt(q, a, d, n) else WhereAt(q, b, e, n - |a|)
  {
    if n < |a| {
      assert c[..n] == a[..n];
    } else {
      assert c[..n] == a + b[..n - |a|];
      DepthConcat(q, a, b[..n - |a|]);
    }
  }

  /** Code in two pieces: a WHERE in neither is none in the whole. */
  lemma NoWhereConcat(q: Text, a: seq<nat>, b: seq<nat>, c: seq<nat>, d: int, e: int)
    requires Joins(q, a, b, c, d, e)
    ensures NoWhere(q, c, d) <==> NoWhere(q, a, d) && NoWhere(q, b, e)
  {
    if NoWhere(q, a, d) && NoWhere(q, b, e) {
      forall n: nat | n < |c| ensures !WhereAt(q, c, d, n) {
        WhereInConcat(q, a, b, c, d, e, n);
      }
    }
    if NoWhere(q, c, d) {
      forall n: nat | n < |a| ensures !WhereAt(q, a, d, n) {
        WhereInConcat(q, a, b, c, d, e, n);
      }
      forall n: nat | n < |b| ensures !WhereAt(q, b, e, n) {
        WhereInConcat(q, a, b, c, d, e, |a| + n);
      }
    }
  }

  /** The only WHERE of the first piece is the only one of the whole exactly when the second has none. */
  lemma OnlyWhereFront(q: Text, a: seq<nat>, b: seq<nat>, c: seq<nat>, d: int, e: int, n: nat)
    requires Joins(q, a, b, c, d, e) && n < |a| && OnlyWhere(q, a, d, n) && NoWhere(q, b, e)
    ensures OnlyWhere(q, c, d, n)
  {
    forall m: nat | m < |c| ensures WhereAt(q, c, d, m) == (m == n) {
      WhereInConcat(q, a, b, c, d, e, m);
    }
  }

  lemma OnlyWhereBack(q: Text, a: seq<nat>, b: seq<nat>, c: seq<nat>, d: int, e: int, n: nat)
    requires Joins(q, a, b, c, d, e) && n < |b|
    ensures OnlyWhere(q, c, d, |a| + n) <==> NoWhere(q, a, d) && OnlyWhere(q, b, e, n)
  {
    WhereInConcat(q, a, b, c, d, e, |a| + n);
    if NoWhere(q, a, d) && OnlyWhere(q, b, e, n) {
      forall m: nat | m < |c| && m != |a| + n ensures !WhereAt(q, c, d, m) {
        WhereInConcat(q, a, b, c, d, e, m);
      }
    }
    if OnlyWhere(q, c, d, |a| + n) {
      forall m: nat | m < |a| ensures !WhereAt(q, a, d, m) {
        WhereInConcat(q, a, b, c, d, e, m);
      }
      forall m: nat | m < |b| && m != n ensures !WhereAt(q, b, e, m) {
        WhereInConcat(q, a, b, c, d, e, |a| + m);
      }
    }
  }

  /** A byte that is neither a parenthesis nor the start of a WHERE. */
  predicate Dull(c: byte) { Delta(c) == 0 && Lower(c) != 119 }

  lemma {:induction false} DullCode(q: Text, code: seq<nat>, d: int)
    requires forall k :: 0 <= k < |code| ==> Dull(At(q, code[k]))
    ensures NoWhere(q, code, d) && Depth(q, code) == 0
    decreases code
  {
    if code != [] {
      DullCode(q, code[..|code| - 1], d);
    }
    forall n: nat | n < |code| ensures !IsWhereAt(q, code[n]) {
      assert Dull(At(q, code[n]));
    }
  }

  /** Every code byte is a place the lexer stops at. */
  lemma {:induction false} CodeIsReached(q: Text, i: nat, r: nat, p: nat)
    requires r <= |q| && Code(q, i, r).Some? && p in Code(q, i, r).value
    ensures i <= p < r && Code(q, i, p).Some?
    decreases |q| - i
  {
    var j := Step(q, i).value;
    if p != i {
      assert p in Code(q, j, r).value;
      CodeIsReached(q, j, r, p);
    }
  }

  // ---- the scanner ----

  /** The scanner at i: outside literals, or inside the one that opened at start. */
  ghost predicate Scanned(q: Text, i: nat, quote: Option<byte>, start: nat) {
    && (quote.None? ==> start == i)
    && (quote.Some? ==> start < |q| && start < i && q[start] == quote.value && IsQuote(quote.value)
                        && LiteralEnd(q, start + 1, quote.value) == LiteralEnd(q, i, quote.value))
  }

  lemma StepOn(q: Text, i: nat, code: seq<nat>)
    requires i < |q| && Code(q, 0, i) == Some(code) && Step(q, i).Some?
    ensures Code(q, 0, Step(q, i).value) == Some(code + (if IsQuote(q[i]) then [] else [i]))
  {
    var j := Step(q, i).value;
    Chain(q, 0, i, j);
    assert (if IsQuote(q[i]) then [] else [i]) + [] == (if IsQuote(q[i]) then [] else [i]);
  }

  lemma StepFails(q: Text, i: nat)
    requires i < |q| && Code(q, 0, i).Some? && Step(q, i).None?
    ensures Answers(q, None)
  {
    Chain(q, 0, i, |q|);
  }

  lemma OpenLiteral(q: Text, i: nat)
    requires i < |q| && IsQuote(q[i])
    ensures Scanned(q, i + 1, Some(q[i]), i)
  {
  }

  lemma EndsInLiteral(q: Text, i: nat, quote: byte, start: nat, code: seq<nat>)
    requires i >= |q| && Scanned(q, i, Some(quote), start) && Code(q, 0, start) == Some(code)
    ensures Answers(q, None)
  {
    StepFails(q, start);
  }

  lemma InLiteral(q: Text, i: nat, quote: byte, start: nat, code: seq<nat>)
    requires i < |q| && Scanned(q, i, Some(quote), start) && Code(q, 0, start) == Some(code)
    ensures var doubled := q[i] == quote && i + 1 < |q| && q[i + 1] == quote;
            if (q[i] == BACKSLASH && quote != BACKTICK) || doubled then Scanned(q, i + 2, Some(quote), start)
            else if q[i] == quote then Code(q, 0, i + 1) == Some(code)
            else Scanned(q, i + 1, Some(quote), start)
  {
    if q[i] == quote && LiteralEnd(q, i, quote) == Some(i + 1) {
      StepOn(q, start, code);
      assert code + [] == code;
    }
  }

  lemma ByteDepth(q: Text, i: nat, code: seq<nat>)
    requires i < |q|
    ensures Depth(q, code + [i]) == Depth(q, code) + Delta(q[i])
    ensures Depth(q, code) != 0 || !IsWhereAt(q, i) ==> NoWhere(q, [i], Depth(q, code))
    ensures Depth(q, code) == 0 && IsWhereAt(q, i) ==> OnlyWhere(q, [i], Depth(q, code), 0)
  {
    assert (code + [i])[..|code|] == code;
    assert [i][..0] == [];
  }

  /** What is known of the WHEREs seen so far. */
  ghost predicate Seen(q: Text, code: seq<nat>, found: Option<nat>, n: nat) {
    if found.Some? then n < |code| && OnlyWhere(q, code, 0, n) && code[n] == found.value else NoWhere(q, code, 0)
  }

  /** The scanner's whole state, outside literals. */
  ghost predicate Outside(q: Text, i: nat, code: seq<nat>, depth: int, found: Option<nat>, n: nat) {
    i <= |q| && Code(q, 0, i) == Some(code) && Depth(q, code) == depth && Seen(q, code, found, n)
  }

  lemma PassByte(q: Text, i: nat, code: seq<nat>, depth: int, found: Option<nat>, n: nat)
    requires i < |q| && Outside(q, i, code, depth, found, n) && !IsQuote(q[i]) && !Forbidden(q, i)
    requires depth != 0 || !IsWhereAt(q, i)
    ensures Outside(q, i + 1, code + [i], depth + Delta(q[i]), found, n)
  {
    StepOn(q, i, code);
    ByteDepth(q, i, code);
    if found.Some? {
      OnlyWhereFront(q, code, [i], code + [i], 0, depth, n);
    } else {
      NoWhereConcat(q, code, [i], code + [i], 0, depth);
    }
  }

  lemma PassFirst(q: Text, i: nat, code: seq<nat>)
    requires IsWhereAt(q, i) && Outside(q, i, code, 0, None, 0)
    ensures Outside(q, i + 1, code + [i], 0, Some(i), |code|)
  {
    StepOn(q, i, code);
    ByteDepth(q, i, code);
    OnlyWhereBack(q, code, [i], code + [i], 0, 0, 0);
  }

  lemma PassLetter(q: Text, i: nat, code: seq<nat>, found: Option<nat>, n: nat)
    requires i < |q| && 101 <= Lower(q[i]) <= 114 && Outside(q, i, code, 0, found, n)
    ensures Outside(q, i + 1, code + [i], 0, found, n)
  {
    PassByte(q, i, code, 0, found, n);
  }

  /** The keyword, when it is the first: the rest of it holds nothing the lexer reacts to. */
  lemma PassWord(q: Text, i: nat, code: seq<nat>) returns (code': seq<nat>, n: nat)
    requires IsWhereAt(q, i) && Outside(q, i, code, 0, None, 0)
    ensures Outside(q, i + 5, code', 0, Some(i), n)
  {
    n := |code|;
    PassFirst(q, i, code);
    var h := code + [i];
    PassLetter(q, i + 1, h, Some(i), |code|);
    var e := h + [i + 1];
    PassLetter(q, i + 2, e, Some(i), |code|);
    var r := e + [i + 2];
    PassLetter(q, i + 3, r, Some(i), |code|);
    PassLetter(q, i + 4, r + [i + 3], Some(i), |code|);
    code' := r + [i + 3] + [i + 4];
  }

  /** Two WHEREs already seen are two in the whole. */
  lemma SecondWord(q: Text, i: nat, code: seq<nat>, found: Option<nat>, n: nat)
    requires IsWhereAt(q, i) && Outside(q, i, code, 0, found, n) && found.Some?
    ensures Answers(q, None)
  {
    StepOn(q, i, code);
    ByteDepth(q, i, code);
    var two := code + [i];
    WhereInConcat(q, code, [i], two, 0, 0, n);
    WhereInConcat(q, code, [i], two, 0, 0, |code|);
    Chain(q, 0, i + 1, |q|);
    if Code(q, i + 1, |q|).Some? {
      var rest := Code(q, i + 1, |q|).value;
      WhereInConcat(q, two, rest, two + rest, 0, Depth(q, two), n);
      WhereInConcat(q, two, rest, two + rest, 0, Depth(q, two), |code|);
    }
  }

  lemma Concludes(q: Text, code: seq<nat>, depth: int, found: Option<nat>, n: nat)
    requires Outside(q, |q|, code, depth, found, n)
    ensures Answers(q, found)
  {
    forall w: nat ensures Own(q, w) <==> found == Some(w) {
      if m: nat :| OnlyWhere(q, code, 0, m) && code[m] == w {
        assert m < |code|;
      }
    }
  }

  /** One byte inside a literal: an escape or a doubled quote takes the next byte with it. */
  method LiteralStep(q: Text, i: nat, quote: byte, ghost start: nat, ghost code: seq<nat>)
      returns (i': nat, quote': Option<byte>, ghost start': nat)
    requires i < |q| && Scanned(q, i, Some(quote), start) && Code(q, 0, start) == Some(code)
    ensures i < i' && start' <= |q| && Scanned(q, i', quote', start') && Code(q, 0, start') == Some(code)
  {
    InLiteral(q, i, quote, start, code);
    if q[i] == BACKSLASH && quote != BACKTICK {
      return i + 2, Some(quote), start;
    }
    if q[i] == quote {
      if i + 1 < |q| && q[i + 1] == quote {
        return i + 2, Some(quote), start;
      }
      return i + 1, None, i + 1;
    }
    return i + 1, Some(quote), start;
  }

  /** One byte outside literals; refused where the text holds a comment, a second statement or a second WHERE. */
  method CodeStep(q: Text, i: nat, depth: int, found: Option<nat>, ghost code: seq<nat>, ghost n: nat)
      returns (refused: bool, i': nat, quote': Option<byte>, depth': int, found': Option<nat>,
               ghost start': nat, ghost code': seq<nat>, ghost n': nat)
    requires i < |q| && Outside(q, i, code, depth, found, n)
    ensures refused ==> Answers(q, None)
    ensures !refused ==> i < i' && Outside(q, start', code', depth', found', n') && Scanned(q, i', quote', start')
  {
    var ch := q[i];
    refused, i', quote', depth', found', start', code', n' := false, i + 1, None, depth, found, i, code, n;
    if IsQuote(ch) {
      OpenLiteral(q, i);
      quote' := Some(ch);
    } else if Forbidden(q, i) {
      StepFails(q, i);
      refused := true;
    } else if depth == 0 && (ch == 119 || ch == 87) && IsWhereAt(q, i) {
      if found.Some? {
        SecondWord(q, i, code, found, n);
        refused := true;
      } else {
        code', n' := PassWord(q, i, code);
        found' := Some(i);
        i', start' := i + 5, i + 5;
      }
    } else {
      PassByte(q, i, code, depth, found, n);
      depth', code', start' := depth + Delta(ch), code + [i], i + 1;
    }
  }

  /** topLevelWhere: one pass over depth, quote and found, which agrees with the lexer on every string. */
  method TopLevelWhere(q: Text) returns (r: Option<nat>)
    ensures Answers(q, r)
  {
    var depth := 0;
    var quote: Option<byte> := None;
    var found: Option<nat> := None;
    ghost var start: nat, code: seq<nat>, n: nat := 0, [], 0;
    var i := 0;
    while i < |q|
      invariant Outside(q, start, code, depth, found, n) && Scanned(q, i, quote, start)
      decreases |q| - i
    {
      if quote.Some? {
        i, quote, start := LiteralStep(q, i, quote.value, start, code);
      } else {
        var refused;
        refused, i, quote, depth, found, start, code, n := CodeStep(q, i, depth, found, code, n);
        if refused {
          return None;
        }
      }
    }
    if quote.Some? {
      EndsInLiteral(q, i, quote.value, start, code);
      return None;
    }
    Concludes(q, code, depth, found, n);
    r := found;
  }
}
