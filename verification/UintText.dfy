/**
 Unsigned integer columns as decimal text (internal/schema/row.go): Uint, Uint64 and appendUintTo.
 */
module UintText {
  import opened Common
  import opened Bytes
  import R = RowCodec

  datatype ParseError = IsNull | Empty | NotUnsigned | Overflows

  /** One step of the parse: the 64-bit product wraps before it is compared. */
  function ParseStep(r: Result<nat, ParseError>, c: byte): Result<nat, ParseError> {
    if r.Err? then r
    else if !IsDigit(c) then Err(NotUnsigned)
    else
      var next := (r.value * 10 + (c - ZERO)) % TWO_64;
      if next < r.value then Err(Overflows) else Ok(next)
  }

  function ParseDigits(s: Text): Result<nat, ParseError> {
    if s == [] then Ok(0) else ParseStep(ParseDigits(s[..|s| - 1]), s[|s| - 1])
  }

  function ParseUint64(v: R.Value): Result<nat, ParseError> {
    if v.Null? then Err(IsNull) else if v.bytes == [] then Err(Empty) else ParseDigits(v.bytes)
  }

  lemma {:induction false} ParseIsWithinRange(s: Text)
    ensures ParseDigits(s).Ok? ==> ParseDigits(s).value < TWO_64 && AllDigits(s)
  {
    if s != [] {
      ParseIsWithinRange(s[..|s| - 1]);
      assert forall i :: 0 <= i < |s| - 1 ==> s[i] == s[..|s| - 1][i];
    }
  }

  lemma {:induction false} ParseIsExactInRange(s: Text)
    requires AllDigits(s) && Value(s) < TWO_64
    ensures ParseDigits(s) == Ok(Value(s))
  {
    if s != [] {
      ParseIsExactInRange(s[..|s| - 1]);
    }
  }

  /**
   When the parse can be trusted. It answers with a text's value exactly when the text is a numeral of a number
   under 2^64; an answer to anything longer is wrong.
   */
  lemma ParseIsRightIffItFits(s: Text)
    requires s != [] && AllDigits(s)
    ensures ParseUint64(R.Present(s)) == Ok(Value(s)) <==> Value(s) < TWO_64
  {
    ParseIsWithinRange(s);
    if Value(s) < TWO_64 {
      ParseIsExactInRange(s);
    }
  }

  /** The overflow test lets some numerals of 2^64 or more through: a wrapped product need not be smaller. */
  lemma OverflowMissed()
    ensures var s := [ZERO + 3] + Zeros(19);
            AllDigits(s) && Value(s) == 30_000_000_000_000_000_000 >= TWO_64
            && ParseUint64(R.Present(s)) == Ok(11_553_255_926_290_448_384)
  {
    ThreeThenZeros(18);
    ThreeThenZeros(19);
    assert Pow10(6) == 1_000_000 && Pow10(12) == 1_000_000 * Pow10(6) && Pow10(18) == 1_000_000 * Pow10(12);
    var s := [ZERO + 3] + Zeros(19);
    assert s[..19] == [ZERO + 3] + Zeros(18);
    ParseIsExactInRange(s[..19]);
  }

  function Zeros(n: nat): (s: Text)
    ensures |s| == n && AllDigits(s)
  {
    seq(n, _ => ZERO)
  }

  lemma {:induction false} ThreeThenZeros(n: nat)
    ensures Value([ZERO + 3] + Zeros(n)) == 3 * Pow10(n)
  {
    var s := [ZERO + 3] + Zeros(n);
    if n == 0 {
      assert s == [ZERO + 3] && s[..0] == [];
    } else {
      ThreeThenZeros(n - 1);
      assert s[..n] == [ZERO + 3] + Zeros(n - 1);
    }
  }

  lemma TwentyDigits()
    ensures TWO_64 <= Pow10(20)
  {
    assert Pow10(6) == 1_000_000 && Pow10(12) == 1_000_000 * Pow10(6) && Pow10(18) == 1_000_000 * Pow10(12);
  }

  /** Uint and Uint64 are inverse. */
  lemma UintRoundTrip(u: nat)
    requires u < TWO_64
    ensures ParseUint64(R.Present(Decimal(u))) == Ok(u)
  {
    ValueOfDecimal(u);
    ParseIsExactInRange(Decimal(u));
  }

  /** Value.Uint64. */
  method Uint64(v: R.Value) returns (r: Result<nat, ParseError>)
    ensures r == ParseUint64(v)
  {
    if v.Null? {
      return Err(IsNull);
    }
    if |v.bytes| == 0 {
      return Err(Empty);
    }
    var u: nat := 0;
    for i := 0 to |v.bytes|
      invariant ParseDigits(v.bytes[..i]) == Ok(u)
    {
      var c := v.bytes[i];
      ParseSnoc(v.bytes, i);
      if ParseStep(Ok(u), c).Err? {
        ParseFailureStands(v.bytes, i + 1, |v.bytes|);
      }
      if !IsDigit(c) {
        return Err(NotUnsigned);
      }
      var next := (u * 10 + (c - ZERO)) % TWO_64;
      if next < u {
        return Err(Overflows);
      }
      u := next;
    }
    assert v.bytes[..|v.bytes|] == v.bytes;
    r := Ok(u);
  }

  lemma ParseSnoc(s: Text, i: nat)
    requires i < |s|
    ensures ParseDigits(s[..i + 1]) == ParseStep(ParseDigits(s[..i]), s[i])
    ensures s[..|s|] == s
  {
    assert s[..i + 1][..i] == s[..i];
  }

  lemma {:induction false} ParseFailureStands(s: Text, n: nat, m: nat)
    requires n <= m <= |s| && ParseDigits(s[..n]).Err?
    ensures ParseDigits(s[..m]) == ParseDigits(s[..n])
    decreases m
  {
    if n < m {
      ParseFailureStands(s, n, m - 1);
      assert s[..m][..m - 1] == s[..m - 1];
    }
  }

  /** appendUintTo: the digits are laid from the back of a twenty-byte buffer, which always holds them. */
  method AppendUint(dst: Text, n: nat) returns (out: Text)
    requires n < TWO_64
    ensures out == dst + Decimal(n)
  {
    if n == 0 {
      return dst + [ZERO];
    }
    TwentyDigits();
    DecimalLength(n, 20);
    var tmp := new byte[20];
    var i, u := 20, n;
    assert Decimal(u) + tmp[i..] == Decimal(n);
    while u > 0
      invariant 0 <= i <= 20 && (i == 20 ==> u == n)
      invariant u > 0 ==> Decimal(u) + tmp[i..] == Decimal(n)
      invariant u == 0 ==> tmp[i..] == Decimal(n)
    {
      i := LayDigit(tmp, i, u, n);
      u := u / 10;
    }
    out := dst + tmp[i..];
  }

  method LayDigit(tmp: array<byte>, i: nat, u: nat, ghost n: nat) returns (k: nat)
    requires tmp.Length == 20 && i <= 20 && u > 0 && Decimal(u) + tmp[i..] == Decimal(n) && |Decimal(n)| <= 20
    modifies tmp
    ensures k == i - 1 && 0 <= k
    ensures if u < 10 then tmp[k..] == Decimal(n) else Decimal(u / 10) + tmp[k..] == Decimal(n)
  {
    assert |Decimal(u) + tmp[i..]| == |Decimal(u)| + (20 - i);
    k := i - 1;
    ghost var before := tmp[i..];
    tmp[k] := ZERO + u % 10;
    assert tmp[k..] == [ZERO + u % 10] + before;
    if u >= 10 {
      assert Decimal(u / 10) + ([ZERO + u % 10] + before) == Decimal(u) + before;
    }
  }
}
