/**
 Row keys as text (internal/schema/key.go): <table>:<value>[:<value>...], values percent-escaped.
 */
module KeyGrammar {
  import opened Common
  import opened Bytes

  const COLON: byte := 58
  const PERCENT: byte := 37

  datatype Key = Key(table: Text, values: seq<Text>)

  datatype Error = NoSeparator | BadTable | TruncatedEscape | BadDigit

  // ---- table names ----

  predicate IsLetter(c: byte) { 65 <= c <= 90 || 97 <= c <= 122 }

  /** ^[A-Za-z_][A-Za-z0-9_$]{0,63}$ */
  predicate ValidIdentifier(s: Text) {
    && 1 <= |s| <= 64 && (IsLetter(s[0]) || s[0] == 95)
    && forall i :: 1 <= i < |s| ==> IsLetter(s[i]) || IsDigit(s[i]) || s[i] == 95 || s[i] == 36
  }

  /** The pattern, byte by byte: what one byte may start a name, and what may follow, up to 64. */
  lemma IdentifierByByte(s: Text, c: byte)
    ensures ValidIdentifier([c]) <==> 'a' as int <= c <= 'z' as int || 'A' as int <= c <= 'Z' as int || c == '_' as int
    ensures s != [] ==>
              (ValidIdentifier(s + [c]) <==>
                 && ValidIdentifier(s) && |s| < 64
                 && (ValidIdentifier([c]) || '0' as int <= c <= '9' as int || c == '$' as int))
  {
    if s != [] && ValidIdentifier(s + [c]) {
      var t := s + [c];
      assert forall i :: 0 <= i < |s| ==> t[i] == s[i];
      assert t[|s|] == c;
    }
  }

  // ---- escaping ----

  predicate Special(c: byte) { c == COLON || c == PERCENT || c < 0x20 || c == 0x7f }

  function HexDigit(n: nat): (c: byte)
    requires n < 16
    ensures c != COLON && c != PERCENT
  {
    if n < 10 then 48 + n else 65 + (n - 10)
  }

  function HexVal(c: byte): (r: Result<nat, Error>)
    ensures r.Ok? ==> r.value < 16
  {
    if 48 <= c <= 57 then Ok(c - 48)
    else if 65 <= c <= 70 then Ok(c - 65 + 10)
    else if 97 <= c <= 102 then Ok(c - 97 + 10)
    else Err(BadDigit)
  }

  /** Sixteen digits, each read back, the letters in either case; nothing else is a digit. */
  lemma HexDigitsReadBack(n: nat, c: byte)
    ensures n < 16 ==> HexVal(HexDigit(n)) == Ok(n)
    ensures 10 <= n < 16 ==> HexVal(HexDigit(n) + 32) == Ok(n)
    ensures HexVal(c).Ok? ==> c == HexDigit(HexVal(c).value) || (HexVal(c).value >= 10 && c == HexDigit(HexVal(c).value) + 32)
  {
  }

  function EscapedByte(c: byte): Text {
    if Special(c) then [PERCENT, HexDigit(c / 16), HexDigit(c % 16)] else [c]
  }

  function Escaped(s: Text): Text {
    if s == [] then [] else Escaped(s[..|s| - 1]) + EscapedByte(s[|s| - 1])
  }

  function Unescaped(s: Text): Result<Text, Error> {
    if s == [] then Ok([])
    else if s[0] != PERCENT then Cons(s[0], Unescaped(s[1..]))
    else if |s| < 3 then Err(TruncatedEscape)
    else
      var hi := HexVal(s[1]);
      var lo := HexVal(s[2]);
      if hi.Err? then Err(hi.error)
      else if lo.Err? then Err(lo.error)
      else Cons(hi.value * 16 + lo.value, Unescaped(s[3..]))
  }

  function Cons(c: byte, r: Result<Text, Error>): Result<Text, Error> {
    if r.Ok? then Ok([c] + r.value) else r
  }

  lemma HexRoundTrip(c: byte)
    ensures HexVal(HexDigit(c / 16)) == Ok(c / 16) && HexVal(HexDigit(c % 16)) == Ok(c % 16)
    ensures c / 16 * 16 + c % 16 == c
  {
  }

  /** Escaping written front to back. */
  lemma {:induction false} EscapedFront(c: byte, s: Text)
    ensures Escaped([c] + s) == EscapedByte(c) + Escaped(s)
    decreases s
  {
    var t := [c] + s;
    if s == [] {
      assert t[..0] == [] && Escaped([]) + EscapedByte(c) == EscapedByte(c) + [];
    } else {
      EscapedFront(c, s[..|s| - 1]);
      InitOfConcat([c], s);
      Associative(EscapedByte(c), Escaped(s[..|s| - 1]), EscapedByte(s[|s| - 1]));
    }
  }

  lemma {:induction false} EscapeRoundTrip(s: Text)
    ensures Unescaped(Escaped(s)) == Ok(s)
    ensures COLON !in Escaped(s)
  {
    if s != [] {
      EscapeRoundTrip(s[1..]);
      assert s == [s[0]] + s[1..];
      EscapedFront(s[0], s[1..]);
      UnescapeByte(s[0], Escaped(s[1..]));
    }
  }

  lemma UnescapeByte(c: byte, rest: Text)
    ensures Unescaped(EscapedByte(c) + rest) == Cons(c, Unescaped(rest))
    ensures COLON !in EscapedByte(c)
  {
    HexRoundTrip(c);
    var e := EscapedByte(c) + rest;
    assert e[|EscapedByte(c)|..] == rest;
  }

  /** An escaped value is printable and holds no separator; the separator, say, is written %3A. */
  lemma {:induction false} EscapedIsPrintable(s: Text)
    ensures forall i :: 0 <= i < |Escaped(s)| ==> Escaped(s)[i] >= 0x20 && Escaped(s)[i] != 0x7f && Escaped(s)[i] != 58
    ensures forall c: byte :: EscapedByte(c) == [c] <==> c != 58 && c != 37 && c >= 0x20 && c != 0x7f
    ensures EscapedByte(58) == [37, 51, 65] && EscapedByte(37) == [37, 50, 53] && EscapedByte(0x7f) == [37, 55, 70]
  {
    if s != [] {
      EscapedIsPrintable(s[..|s| - 1]);
    }
  }

  /** Text without separator, escape character or unprintables is its own escape: integer keys are unchanged. */
  lemma {:induction false} PlainEscapesToItself(s: Text)
    ensures |Escaped(s)| >= |s|
    ensures Escaped(s) == s <==> forall i :: 0 <= i < |s| ==> !Special(s[i])
  {
    if s != [] {
      var init, c := s[..|s| - 1], s[|s| - 1];
      PlainEscapesToItself(init);
      assert s == init + [c];
      if Special(c) {
        assert |Escaped(s)| > |s|;
      } else if Escaped(s) == s {
        assert Escaped(init) == Escaped(s)[..|s| - 1];
      }
    }
  }

  /** The shortcut for text with no escapes is no shortcut in meaning. */
  lemma {:induction false} NothingToUnescape(s: Text)
    requires PERCENT !in s
    ensures Unescaped(s) == Ok(s)
  {
    if s != [] {
      NothingToUnescape(s[1..]);
      assert s == [s[0]] + s[1..];
    }
  }

  // ---- splitting ----

  function FirstColon(s: Text): (i: nat)
    ensures i <= |s| && COLON !in s[..i] && (i < |s| ==> s[i] == COLON)
  {
    if s == [] || s[0] == COLON then 0 else 1 + FirstColon(s[1..])
  }

  function Split(s: Text): (parts: seq<Text>)
    ensures parts != []
    decreases |s|
  {
    var i := FirstColon(s);
    if i == |s| then [s] else [s[..i]] + Split(s[i + 1..])
  }

  lemma {:induction false} FirstColonAfter(a: Text, b: Text)
    requires COLON !in a
    ensures FirstColon(a) == |a| && FirstColon(a + [COLON] + b) == |a|
  {
    var s := a + [COLON] + b;
    if a != [] {
      FirstColonAfter(a[1..], b);
      assert s[1..] == a[1..] + [COLON] + b && s[0] == a[0];
    }
  }

  // ---- the key ----

  function RenderValues(values: seq<Text>): Text {
    if values == [] then [] else [COLON] + Escaped(values[0]) + RenderValues(values[1..])
  }

  function Rendered(k: Key): Text { k.table + RenderValues(k.values) }

  function UnescapeAll(parts: seq<Text>): Result<seq<Text>, Error> {
    if parts == [] then Ok([])
    else
      var head := Unescaped(parts[0]);
      if head.Err? then Err(head.error)
      else
        var rest := UnescapeAll(parts[1..]);
        if rest.Err? then rest else Ok([head.value] + rest.value)
  }

  function Parsed(s: Text): Result<Key, Error> {
    var i := FirstColon(s);
    if i == |s| then Err(NoSeparator)
    else if !ValidIdentifier(s[..i]) then Err(BadTable)
    else
      var values := UnescapeAll(Split(s[i + 1..]));
      if values.Err? then Err(values.error) else Ok(Key(s[..i], values.value))
  }

  lemma SplitFront(a: Text, tail: Text)
    requires COLON !in a
    ensures Split(a) == [a] && Split(a + [COLON] + tail) == [a] + Split(tail)
  {
    FirstColonAfter(a, tail);
    var s := a + [COLON] + tail;
    assert s[..|a|] == a && s[|a| + 1..] == tail;
  }

  lemma UnescapeFront(a: Text, parts: seq<Text>, v: Text, values: seq<Text>)
    requires Unescaped(a) == Ok(v) && UnescapeAll(parts) == Ok(values)
    ensures UnescapeAll([a] + parts) == Ok([v] + values)
  {
    assert ([a] + parts)[1..] == parts;
  }

  /** The values without the leading separator. */
  function Joined(values: seq<Text>): Text
    requires values != []
  {
    if |values| == 1 then Escaped(values[0]) else Escaped(values[0]) + [COLON] + Joined(values[1..])
  }

  lemma {:induction false} RenderIsJoined(values: seq<Text>)
    requires values != []
    ensures RenderValues(values) == [COLON] + Joined(values)
  {
    if |values| > 1 {
      RenderIsJoined(values[1..]);
      Associative([COLON] + Escaped(values[0]), [COLON], Joined(values[1..]));
      Associative([COLON], Escaped(values[0]) + [COLON], Joined(values[1..]));
      Associative([COLON], Escaped(values[0]), [COLON]);
    } else {
      assert RenderValues(values) == [COLON] + Escaped(values[0]) + [];
    }
  }

  lemma {:induction false} SplitJoined(values: seq<Text>)
    requires values != []
    ensures UnescapeAll(Split(Joined(values))) == Ok(values)
  {
    var v, rest := values[0], values[1..];
    EscapeRoundTrip(v);
    assert values == [v] + rest;
    if rest == [] {
      SplitFront(Escaped(v), []);
      UnescapeFront(Escaped(v), [], v, []);
      assert [Escaped(v)] + [] == [Escaped(v)];
    } else {
      SplitJoined(rest);
      SplitFront(Escaped(v), Joined(rest));
      UnescapeFront(Escaped(v), Split(Joined(rest)), v, rest);
    }
  }

  lemma IdentifierHasNoColon(s: Text)
    requires ValidIdentifier(s)
    ensures COLON !in s
  {
  }

  predicate Nameable(k: Key) { ValidIdentifier(k.table) && k.values != [] }

  /** Every key with a valid table and at least one value, whatever its bytes, reads back as itself. */
  lemma KeyRoundTrip(k: Key)
    requires Nameable(k)
    ensures Parsed(Rendered(k)) == Ok(k)
  {
    IdentifierHasNoColon(k.table);
    RenderIsJoined(k.values);
    SplitJoined(k.values);
    var s, tail := Rendered(k), Joined(k.values);
    assert s == k.table + [COLON] + tail;
    FirstColonAfter(k.table, tail);
    assert s[..|k.table|] == k.table && s[|k.table| + 1..] == tail;
  }

  /** Two rows are never called by one name. */
  lemma RenderingIsInjective(k: Key, k': Key)
    requires Nameable(k) && Nameable(k') && Rendered(k) == Rendered(k')
    ensures k == k'
  {
    KeyRoundTrip(k);
    KeyRoundTrip(k');
  }

  lemma {:induction false} UnescapeAllCount(parts: seq<Text>)
    requires UnescapeAll(parts).Ok?
    ensures |UnescapeAll(parts).value| == |parts|
  {
    if parts != [] {
      UnescapeAllCount(parts[1..]);
    }
  }

  /** Rendering what was parsed is a normal form: it names the same key and renders to itself. */
  lemma RenderedIsNormalForm(s: Text)
    requires Parsed(s).Ok?
    ensures Nameable(Parsed(s).value)
    ensures var normal := Rendered(Parsed(s).value);
            Parsed(normal) == Parsed(s) && Rendered(Parsed(normal).value) == normal
  {
    var i := FirstColon(s);
    UnescapeAllCount(Split(s[i + 1..]));
    KeyRoundTrip(Parsed(s).value);
  }

  // ---- the loops ----

  /** Key.String, with writeEscaped inside it. */
  method Render(k: Key) returns (s: Text)
    ensures s == Rendered(k)
  {
    s := k.table;
    for i := 0 to |k.values|
      invariant s + RenderValues(k.values[i..]) == Rendered(k)
    {
      assert k.values[i..][1..] == k.values[i + 1..];
      Associative(s, [COLON] + Escaped(k.values[i]), RenderValues(k.values[i + 1..]));
      Associative(s, [COLON], Escaped(k.values[i]));
      s := WriteEscaped(s + [COLON], k.values[i]);
    }
    assert k.values[|k.values|..] == [];
    assert s + [] == s;
  }

  method WriteEscaped(b: Text, s: Text) returns (out: Text)
    ensures out == b + Escaped(s)
  {
    out := b;
    for i := 0 to |s|
      invariant out == b + Escaped(s[..i])
    {
      var c := s[i];
      assert s[..i + 1][..i] == s[..i];
      if Special(c) {
        out := out + [PERCENT] + [HexDigit(c / 16)] + [HexDigit(c % 16)];
      } else {
        out := out + [c];
      }
    }
    assert s[..|s|] == s;
  }

  method Unescape(s: Text) returns (r: Result<Text, Error>)
    ensures r == Unescaped(s)
  {
    if PERCENT !in s {
      NothingToUnescape(s);
      return Ok(s);
    }
    var b: Text := [];
    var i := 0;
    assert s[0..] == s;
    assert Unescaped(s).Ok? ==> [] + Unescaped(s).value == Unescaped(s).value;
    while i < |s|
      invariant i <= |s| && Unescaped(s) == After(b, Unescaped(s[i..]))
    {
      if s[i] != PERCENT {
        AfterCons(b, s[i], Unescaped(s[i + 1..]));
        b := b + [s[i]];
        assert s[i..][1..] == s[i + 1..];
        i := i + 1;
        continue;
      }
      if i + 2 >= |s| {
        return Err(TruncatedEscape);
      }
      var hi := HexVal(s[i + 1]);
      if hi.Err? {
        return Err(hi.error);
      }
      var lo := HexVal(s[i + 2]);
      if lo.Err? {
        return Err(lo.error);
      }
      AfterCons(b, hi.value * 16 + lo.value, Unescaped(s[i + 3..]));
      b := b + [hi.value * 16 + lo.value];
      assert s[i..][3..] == s[i + 3..];
      i := i + 3;
    }
    assert s[i..] == [] && b + [] == b;
    r := Ok(b);
  }

  function After(b: Text, r: Result<Text, Error>): Result<Text, Error> { if r.Ok? then Ok(b + r.value) else r }

  lemma AfterCons(b: Text, c: byte, r: Result<Text, Error>)
    ensures After(b, Cons(c, r)) == After(b + [c], r)
  {
    if r.Ok? {
      assert b + ([c] + r.value) == b + [c] + r.value;
    }
  }

  method ParseKey(s: Text) returns (r: Result<Key, Error>)
    ensures r == Parsed(s)
  {
    var i := FirstColon(s);
    if i == |s| {
      return Err(NoSeparator);
    }
    var table, rest := s[..i], s[i + 1..];
    if !ValidIdentifier(table) {
      return Err(BadTable);
    }
    var parts := Split(rest);
    var values: seq<Text> := [];
    assert parts[0..] == parts;
    assert UnescapeAll(parts).Ok? ==> [] + UnescapeAll(parts).value == UnescapeAll(parts).value;
    for n := 0 to |parts|
      invariant UnescapeAll(parts) == AllAfter(values, UnescapeAll(parts[n..]))
    {
      assert parts[n..][1..] == parts[n + 1..];
      var v := Unescape(parts[n]);
      if v.Err? {
        return Err(v.error);
      }
      assert UnescapeAll(parts[n + 1..]).Ok? ==>
          values + ([v.value] + UnescapeAll(parts[n + 1..]).value) == values + [v.value] + UnescapeAll(parts[n + 1..]).value;
      values := values + [v.value];
    }
    assert parts[|parts|..] == [] && values + [] == values;
    r := Ok(Key(table, values));
  }

  function AllAfter(values: seq<Text>, r: Result<seq<Text>, Error>): Result<seq<Text>, Error> {
    if r.Ok? then Ok(values + r.value) else r
  }

  // ---- validation ----

  datatype ColumnType = Unsigned(bits: nat) | Int64 | AnyBytes | Unkeyable

  function Power2(n: nat): nat { if n == 0 then 1 else 2 * Power2(n - 1) }

  /** strconv.ParseUint in base ten. */
  function ParseUint(text: Text, bits: nat): Option<nat> {
    if text != [] && AllDigits(text) && Value(text) < Power2(bits) then Some(Value(text)) else None
  }

  /** strconv.ParseInt in base ten, 64 bits: an optional sign and digits. */
  function ParseInt(text: Text): Option<int> {
    if text == [] then None
    else
      var negative := text[0] == 45;
      var digits := if text[0] == 45 || text[0] == 43 then text[1..] else text;
      if digits == [] || !AllDigits(digits) then None
      else
        var v: int := Value(digits);
        if negative then (if v <= 0x8000_0000_0000_0000 then Some(-v) else None)
        else if v < 0x8000_0000_0000_0000 then Some(v) else None
  }

  function FormatInt(v: int): Text { if v < 0 then [45] + Decimal(-v) else Decimal(v) }

  predicate Fits(t: ColumnType, text: Text) {
    match t
    case Unsigned(bits) => var v := ParseUint(text, bits); v.Some? && text == Decimal(v.value)
    case Int64 => var v := ParseInt(text); v.Some? && text == FormatInt(v.value)
    case AnyBytes => true
    case Unkeyable => false
  }

  /** An integer column takes exactly the canonical numerals of its range, so one number has one key. */
  lemma FitsExactlyTheCanonical(bits: nat, text: Text)
    ensures Fits(Unsigned(bits), text) <==> exists v: nat :: v < Power2(bits) && text == Decimal(v)
  {
    if v: nat :| v < Power2(bits) && text == Decimal(v) {
      ValueOfDecimal(v);
    }
  }

  lemma FitsExactlyTheCanonicalSigned(text: Text)
    ensures Fits(Int64, text) <==>
              exists v: int :: -0x8000_0000_0000_0000 <= v < 0x8000_0000_0000_0000 && text == FormatInt(v)
  {
    if Fits(Int64, text) {
      assert text == FormatInt(ParseInt(text).value);
    }
    if v: int :| -0x8000_0000_0000_0000 <= v < 0x8000_0000_0000_0000 && text == FormatInt(v) {
      if v < 0 {
        ValueOfDecimal(-v);
        assert text[1..] == Decimal(-v);
      } else {
        ValueOfDecimal(v);
        assert IsDigit(text[0]);
      }
    }
  }
}
