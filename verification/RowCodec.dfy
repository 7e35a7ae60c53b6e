/**
 The row encoding (internal/schema/row.go).

 A row is a format byte, a bitmap of NULLs, and the other values in order, each behind its length as a
 variable-length integer.
 */
module RowCodec {
  import opened Common
  import opened Bytes

  const ROW_FORMAT: byte := 1

  datatype Value = Null | Present(bytes: Text)

  /** What of a column the encoding depends on. */
  datatype Column = Column(name: string, nullable: bool)

  datatype Error =
    | Arity
    | NotNull(column: nat)
    | TooShort
    | Format
    | TruncatedLength(column: nat)
    | TruncatedValue(column: nat)
    | LeftOver

  // ---- lengths: the variable-length integers of encoding/binary ----

  function AppendUvarint(n: nat): (s: Text)
    ensures s != []
  {
    if n < 128 then [n] else [n % 128 + 128] + AppendUvarint(n / 128)
  }

  /** Reads a length, i bytes of which came before; the tenth byte may only be 0 or 1. Gives the bytes used. */
  function UvarintAt(b: Text, i: nat): (r: Option<(nat, nat)>)
    ensures r.Some? ==> 0 < r.value.1 <= |b|
  {
    if b == [] || i == 10 then None
    else if b[0] < 128 then (if i == 9 && b[0] > 1 then None else Some((b[0], 1)))
    else
      match UvarintAt(b[1..], i + 1)
      case None => None
      case Some((n, used)) => Some((b[0] - 128 + 128 * n, used + 1))
  }

  function Uvarint(b: Text): (r: Option<(nat, nat)>)
    ensures r.Some? ==> 0 < r.value.1 <= |b|
  {
    UvarintAt(b, 0)
  }

  /** One more than the largest value the bytes from position i on can hold. */
  function Room(i: nat): nat
    requires i <= 9
    decreases 9 - i
  {
    if i == 9 then 2 else 128 * Room(i + 1)
  }

  lemma RoomIsSixtyFourBits()
    ensures Room(0) == TWO_64
  {
    assert Room(7) == 128 * 128 * 2;
    assert Room(4) == 128 * 128 * 128 * Room(7);
    assert Room(1) == 128 * 128 * 128 * Room(4);
  }

  lemma {:induction false} LengthRoundTrip(n: nat, rest: Text, i: nat)
    requires i <= 9 && n < Room(i)
    ensures UvarintAt(AppendUvarint(n) + rest, i) == Some((n, |AppendUvarint(n)|))
    decreases n
  {
    var s := AppendUvarint(n);
    if n < 128 {
      assert (s + rest)[0] == n;
    } else {
      LengthRoundTrip(n / 128, rest, i + 1);
      assert (s + rest)[1..] == AppendUvarint(n / 128) + rest;
      assert (s + rest)[0] == n % 128 + 128;
    }
  }

  lemma {:induction false} LengthIgnoresWhatFollows(b: Text, x: Text, i: nat)
    requires UvarintAt(b, i).Some?
    ensures UvarintAt(b + x, i) == UvarintAt(b, i)
    decreases b
  {
    assert (b + x)[0] == b[0];
    if b[0] >= 128 {
      LengthIgnoresWhatFollows(b[1..], x, i + 1);
      assert (b + x)[1..] == b[1..] + x;
    }
  }

  /** The encoder writes the shortest of the forms the decoder reads. */
  lemma {:induction false} ShortestLength(b: Text, i: nat)
    requires UvarintAt(b, i).Some? && i <= 10
    ensures |AppendUvarint(UvarintAt(b, i).value.0)| <= UvarintAt(b, i).value.1
    ensures i <= 9 && UvarintAt(b, i).value.0 < Room(i)
    decreases b
  {
    if b[0] >= 128 {
      ShortestLength(b[1..], i + 1);
      var n := UvarintAt(b[1..], i + 1).value.0;
      assert (b[0] - 128 + 128 * n) / 128 == n;
    } else if i < 9 {
      RoomIsAmple(i);
    }
  }

  lemma {:induction false} RoomIsAmple(i: nat)
    requires i < 9
    ensures Room(i) >= 256
    decreases 9 - i
  {
    if i < 8 {
      RoomIsAmple(i + 1);
    }
  }

  // ---- the bitmap ----

  /** Flags as a number, the first the least significant bit. */
  function Pack(f: seq<bool>): nat {
    if f == [] then 0 else (if f[0] then 1 else 0) + 2 * Pack(f[1..])
  }

  /** n >> k & 1. */
  predicate HasBit(n: nat, k: nat) {
    if k == 0 then n % 2 == 1 else HasBit(n / 2, k - 1)
  }

  /** n | 1 << k. */
  function OrBit(n: nat, k: nat): nat {
    if k == 0 then (if n % 2 == 1 then n else n + 1) else n % 2 + 2 * OrBit(n / 2, k - 1)
  }

  lemma {:induction false} PackHasBits(f: seq<bool>, k: nat)
    requires k < |f|
    ensures HasBit(Pack(f), k) == f[k]
  {
    if k > 0 {
      PackHasBits(f[1..], k - 1);
    }
  }

  lemma {:induction false} OrBitPacks(f: seq<bool>, k: nat)
    requires k < |f|
    ensures OrBit(Pack(f), k) == Pack(f[k := true])
  {
    if k > 0 {
      OrBitPacks(f[1..], k - 1);
      assert f[k := true][1..] == f[1..][k - 1 := true];
    } else {
      assert f[0 := true][1..] == f[1..];
    }
  }

  function Twos(n: nat): (t: nat)
    ensures t > 0
  {
    if n == 0 then 1 else 2 * Twos(n - 1)
  }

  lemma {:induction false} PackRange(f: seq<bool>)
    ensures Pack(f) < Twos(|f|)
  {
    if f != [] {
      PackRange(f[1..]);
    }
  }

  lemma EightFlags(f: seq<bool>)
    requires |f| == 8
    ensures Pack(f) < 256
  {
    PackRange(f);
    assert Twos(2) == 4 && Twos(4) == 16 && Twos(6) == 64;
  }

  function NullAt(values: seq<Value>, i: nat): bool { i < |values| && values[i].Null? }

  /** The eight flags of byte j, of the values before n. */
  function Flags(values: seq<Value>, j: nat, n: nat): (f: seq<bool>)
    ensures |f| == 8
  {
    seq(8, k requires 0 <= k => 8 * j + k < n && NullAt(values, 8 * j + k))
  }

  function FlagByte(values: seq<Value>, j: nat, n: nat): byte {
    EightFlags(Flags(values, j, n));
    Pack(Flags(values, j, n))
  }

  function Bitmap(values: seq<Value>, n: nat): (s: Text)
    ensures |s| == (|values| + 7) / 8
  {
    seq((|values| + 7) / 8, j requires 0 <= j => FlagByte(values, j, n))
  }

  /** The decoder's test of column i. */
  predicate Marked(nulls: Text, i: nat)
    requires i / 8 < |nulls|
  {
    HasBit(nulls[i / 8], i % 8)
  }

  lemma BitmapMarksNulls(values: seq<Value>, i: nat)
    requires i < |values|
    ensures Marked(Bitmap(values, |values|), i) == values[i].Null?
  {
    var j, k := i / 8, i % 8;
    var f := Flags(values, j, |values|);
    assert i == 8 * j + k && f[k] == (8 * j + k < |values| && NullAt(values, 8 * j + k));
    PackHasBits(f, k);
    assert Bitmap(values, |values|)[j] == FlagByte(values, j, |values|);
  }

  // ---- what the two operations compute ----

  function EncodeValues(values: seq<Value>): Text {
    if values == [] then []
    else (if values[0].Null? then [] else AppendUvarint(|values[0].bytes|) + values[0].bytes) + EncodeValues(values[1..])
  }

  /** The first NULL among the first n values whose column does not allow it. */
  function BadNull(cols: seq<Column>, values: seq<Value>, n: nat): Option<nat>
    requires |cols| == |values| && n <= |cols|
  {
    if n == 0 then None
    else
      var before := BadNull(cols, values, n - 1);
      if before.Some? then before
      else if values[n - 1].Null? && !cols[n - 1].nullable then Some(n - 1) else None
  }

  function Encoded(cols: seq<Column>, values: seq<Value>): Result<Text, Error> {
    if |values| != |cols| then Err(Arity)
    else match BadNull(cols, values, |cols|)
      case Some(i) => Err(NotNull(i))
      case None => Ok([ROW_FORMAT] + Bitmap(values, |values|) + EncodeValues(values))
  }

  /** The columns from i on, read from rest. */
  function DecodeFrom(cols: seq<Column>, nulls: Text, rest: Text, i: nat): Result<seq<Value>, Error>
    requires i <= |cols| && |nulls| == (|cols| + 7) / 8
    decreases |cols| - i
  {
    if i == |cols| then (if rest == [] then Ok([]) else Err(LeftOver))
    else if Marked(nulls, i) then
      if !cols[i].nullable then Err(NotNull(i)) else Prepend([Null], DecodeFrom(cols, nulls, rest, i + 1))
    else match Uvarint(rest)
      case None => Err(TruncatedLength(i))
      case Some((n, used)) =>
        if |rest| - used < n then Err(TruncatedValue(i))
        else Prepend([Present(rest[used..used + n])], DecodeFrom(cols, nulls, rest[used + n..], i + 1))
  }

  function Prepend(values: seq<Value>, r: Result<seq<Value>, Error>): Result<seq<Value>, Error> {
    if r.Ok? then Ok(values + r.value) else r
  }

  function Decoded(cols: seq<Column>, b: Text): Result<seq<Value>, Error> {
    var n := (|cols| + 7) / 8;
    if |b| < 1 + n then Err(TooShort)
    else if b[0] != ROW_FORMAT then Err(Format)
    else DecodeFrom(cols, b[1..1 + n], b[1 + n..], 0)
  }

  // ---- round trip ----

  /** Lengths are 64-bit: no slice of the running program is longer. */
  predicate InMemory(values: seq<Value>) {
    forall i :: 0 <= i < |values| && values[i].Present? ==> |values[i].bytes| < TWO_64
  }

  predicate Respects(cols: seq<Column>, values: seq<Value>) {
    |values| == |cols| && forall i :: 0 <= i < |values| && values[i].Null? ==> cols[i].nullable
  }

  lemma {:induction false} NoBadNull(cols: seq<Column>, values: seq<Value>, n: nat)
    requires |cols| == |values| && n <= |cols|
    ensures BadNull(cols, values, n).None? <==> forall i :: 0 <= i < n && values[i].Null? ==> cols[i].nullable
    ensures BadNull(cols, values, n).Some? ==>
              var i := BadNull(cols, values, n).value;
              i < n && values[i].Null? && !cols[i].nullable && forall j :: 0 <= j < i && values[j].Null? ==> cols[j].nullable
  {
    if n > 0 {
      NoBadNull(cols, values, n - 1);
    }
  }

  /** One value written ahead of a tail is read back, leaving the tail. */
  lemma ValueRoundTrip(v: Value, tail: Text)
    requires v.Present? && |v.bytes| < TWO_64
    ensures var head := AppendUvarint(|v.bytes|);
            var rest := head + v.bytes + tail;
            && Uvarint(rest) == Some((|v.bytes|, |head|))
            && rest[|head|..|head| + |v.bytes|] == v.bytes && rest[|head| + |v.bytes|..] == tail
  {
    RoomIsSixtyFourBits();
    var head := AppendUvarint(|v.bytes|);
    assert head + v.bytes + tail == head + (v.bytes + tail);
    LengthRoundTrip(|v.bytes|, v.bytes + tail, 0);
  }

  lemma {:induction false} ValuesRoundTrip(cols: seq<Column>, values: seq<Value>, nulls: Text, i: nat)
    requires Respects(cols, values) && InMemory(values) && i <= |cols|
    requires |nulls| == (|cols| + 7) / 8 && forall j :: 0 <= j < |values| ==> Marked(nulls, j) == values[j].Null?
    ensures DecodeFrom(cols, nulls, EncodeValues(values[i..]), i) == Ok(values[i..])
    decreases |cols| - i
  {
    if i < |cols| {
      ValuesRoundTrip(cols, values, nulls, i + 1);
      var v, tail := values[i], EncodeValues(values[i + 1..]);
      assert values[i..][1..] == values[i + 1..] && values[i..] == [v] + values[i + 1..];
      if v.Present? {
        ValueRoundTrip(v, tail);
        assert EncodeValues(values[i..]) == AppendUvarint(|v.bytes|) + v.bytes + tail;
      } else {
        assert EncodeValues(values[i..]) == tail;
      }
    }
  }

  /** A row encodes exactly when it respects its descriptor, and then decodes to itself. */
  lemma RowRoundTrip(cols: seq<Column>, values: seq<Value>)
    requires InMemory(values)
    ensures Encoded(cols, values).Ok? <==> Respects(cols, values)
    ensures Encoded(cols, values).Ok? ==> Decoded(cols, Encoded(cols, values).value) == Ok(values)
  {
    if |values| == |cols| {
      NoBadNull(cols, values, |cols|);
      if Respects(cols, values) {
        forall j | 0 <= j < |values| ensures Marked(Bitmap(values, |values|), j) == values[j].Null? {
          BitmapMarksNulls(values, j);
        }
        ValuesRoundTrip(cols, values, Bitmap(values, |values|), 0);
        var n, b := (|cols| + 7) / 8, Encoded(cols, values).value;
        assert b[1..1 + n] == Bitmap(values, |values|);
        assert b[1 + n..] == EncodeValues(values) && values[0..] == values;
      }
    }
  }

  /**
   The layout, byte by byte: the format byte is 1; column i's NULL bit is bit i mod 8, from the low end, of byte
   1 + i / 8; the values follow. A length below 128 is one byte, and 300 is 172, 2.
   */
  lemma EncodingLayout(cols: seq<Column>, values: seq<Value>, i: nat)
    requires Encoded(cols, values).Ok? && i < |values|
    ensures var b, n := Encoded(cols, values).value, (|cols| + 7) / 8;
            && |b| >= 1 + n && b[0] == 1 && b[1 + n..] == EncodeValues(values)
            && 1 + i / 8 < 1 + n && (b[1 + i / 8] / Twos(i % 8) % 2 == 1 <==> values[i].Null?)
    ensures AppendUvarint(300) == [172, 2] && forall m: nat :: m < 128 ==> AppendUvarint(m) == [m]
  {
    var b, n := Encoded(cols, values).value, (|cols| + 7) / 8;
    BitmapMarksNulls(values, i);
    assert b[1..1 + n] == Bitmap(values, |values|);
    assert b[1 + i / 8] == Bitmap(values, |values|)[i / 8];
    assert b[1 + n..] == EncodeValues(values);
    BitByDivision(b[1 + i / 8], i % 8);
    assert AppendUvarint(2) == [2];
  }

  lemma {:induction false} BitByDivision(n: nat, k: nat)
    ensures HasBit(n, k) <==> n / Twos(k) % 2 == 1
  {
    if k > 0 {
      BitByDivision(n / 2, k - 1);
      DivideTwice(n, Twos(k - 1));
    }
  }

  lemma DivideTwice(n: nat, d: nat)
    requires d > 0
    ensures n / 2 / d == n / (2 * d)
  {
    var q, r := n / (2 * d), n % (2 * d);
    assert n == q * (2 * d) + r && n / 2 == q * d + r / 2 && 0 <= r / 2 < d;
    Quotient(n / 2, q, r / 2, d);
  }

  lemma Quotient(x: nat, q: nat, r: nat, d: nat)
    requires d > 0 && x == q * d + r && r < d
    ensures x / d == q
  {
    var q', r' := x / d, x % d;
    assert (q - q') * d == r' - r;
    if q - q' >= 1 {
      MulAtLeast(q - q', d);
    } else if q - q' <= -1 {
      MulAtLeast(q' - q, d);
    }
  }

  /** Two rows with one encoding are one row. */
  lemma EncodingIsInjective(cols: seq<Column>, values: seq<Value>, values': seq<Value>)
    requires InMemory(values) && InMemory(values')
    requires Encoded(cols, values).Ok? && Encoded(cols, values) == Encoded(cols, values')
    ensures values == values'
  {
    RowRoundTrip(cols, values);
    RowRoundTrip(cols, values');
  }

  // ---- any bytes at all ----

  lemma {:induction false} DecodedValues(cols: seq<Column>, nulls: Text, rest: Text, i: nat)
    requires i <= |cols| && |nulls| == (|cols| + 7) / 8 && DecodeFrom(cols, nulls, rest, i).Ok?
    ensures var values := DecodeFrom(cols, nulls, rest, i).value;
            && Respects(cols[i..], values) && InMemory(values) && |EncodeValues(values)| <= |rest|
    decreases |cols| - i
  {
    if i < |cols| {
      assert cols[i..] == [cols[i]] + cols[i + 1..];
      if Marked(nulls, i) {
        DecodedValues(cols, nulls, rest, i + 1);
        ConsValues(Null, DecodeFrom(cols, nulls, rest, i + 1).value, cols[i..]);
      } else {
        var (n, used) := Uvarint(rest).value;
        DecodedValues(cols, nulls, rest[used + n..], i + 1);
        ShortestLength(rest, 0);
        RoomIsSixtyFourBits();
        ConsValues(Present(rest[used..used + n]), DecodeFrom(cols, nulls, rest[used + n..], i + 1).value, cols[i..]);
      }
    }
  }

  lemma ConsValues(v: Value, values: seq<Value>, cols: seq<Column>)
    requires cols != [] && Respects(cols[1..], values) && InMemory(values)
    requires if v.Null? then cols[0].nullable else |v.bytes| < TWO_64
    ensures Respects(cols, [v] + values) && InMemory([v] + values)
    ensures |EncodeValues([v] + values)|
            == (if v.Null? then 0 else |AppendUvarint(|v.bytes|)| + |v.bytes|) + |EncodeValues(values)|
  {
    assert ([v] + values)[1..] == values;
    assert forall i :: 0 < i < |cols| ==> cols[i] == cols[1..][i - 1];
  }

  /**
   Any bytes are refused or give a full row that respects the descriptor. That row encodes, in no more bytes,
   to a form that decodes to the same row.
   */
  lemma DecodesToAFullRow(cols: seq<Column>, b: Text)
    requires Decoded(cols, b).Ok?
    ensures var values := Decoded(cols, b).value;
            && Respects(cols, values) && Encoded(cols, values).Ok?
            && |Encoded(cols, values).value| <= |b|
            && Decoded(cols, Encoded(cols, values).value) == Ok(values)
  {
    var n := (|cols| + 7) / 8;
    DecodedValues(cols, b[1..1 + n], b[1 + n..], 0);
    assert cols[0..] == cols;
    RowRoundTrip(cols, Decoded(cols, b).value);
  }

  lemma {:induction false} ExtensionRefused(cols: seq<Column>, nulls: Text, rest: Text, x: Text, i: nat)
    requires i <= |cols| && |nulls| == (|cols| + 7) / 8 && DecodeFrom(cols, nulls, rest, i).Ok? && x != []
    ensures DecodeFrom(cols, nulls, rest + x, i).Err?
    decreases |cols| - i
  {
    if i < |cols| {
      if Marked(nulls, i) {
        ExtensionRefused(cols, nulls, rest, x, i + 1);
      } else {
        var (n, used) := Uvarint(rest).value;
        LengthIgnoresWhatFollows(rest, x, 0);
        ExtensionRefused(cols, nulls, rest[used + n..], x, i + 1);
        assert (rest + x)[used + n..] == rest[used + n..] + x;
      }
    }
  }

  /** No bytes are left over: no accepted row is a proper prefix of another. */
  lemma NothingFollowsARow(cols: seq<Column>, b: Text, x: Text)
    requires Decoded(cols, b).Ok? && x != []
    ensures Decoded(cols, b + x).Err?
  {
    var n := (|cols| + 7) / 8;
    ExtensionRefused(cols, b[1..1 + n], b[1 + n..], x, 0);
    assert (b + x)[1..1 + n] == b[1..1 + n] && (b + x)[1 + n..] == b[1 + n..] + x;
  }

  // ---- the loops ----

  method EncodeRow(cols: seq<Column>, values: seq<Value>) returns (r: Result<Text, Error>)
    ensures r == Encoded(cols, values)
  {
    if |values| != |cols| {
      return Err(Arity);
    }
    var nulls := MarkNulls(cols, values);
    if nulls.Err? {
      return Err(nulls.error);
    }
    var out := [ROW_FORMAT] + nulls.value;
    ghost var header := out;
    for i := 0 to |values|
      invariant out + EncodeValues(values[i..]) == header + EncodeValues(values)
    {
      assert values[i..][1..] == values[i + 1..];
      if values[i].Present? {
        Associative(out, AppendUvarint(|values[i].bytes|) + values[i].bytes, EncodeValues(values[i + 1..]));
        Associative(out, AppendUvarint(|values[i].bytes|), values[i].bytes);
        out := out + AppendUvarint(|values[i].bytes|);
        out := out + values[i].bytes;
      } else {
        assert EncodeValues(values[i..]) == EncodeValues(values[i + 1..]);
      }
    }
    assert values[|values|..] == [] && values[0..] == values;
    assert out + [] == out;
    r := Ok(out);
  }

  /** The bitmap, set bit by bit, unless a column forbids its NULL. */
  method MarkNulls(cols: seq<Column>, values: seq<Value>) returns (r: Result<Text, Error>)
    requires |values| == |cols|
    ensures r == match BadNull(cols, values, |cols|)
                 case Some(i) => Err(NotNull(i))
                 case None => Ok(Bitmap(values, |values|))
  {
    var nulls := new byte[(|cols| + 7) / 8](_ => 0);
    BitmapOfNothing(values);
    assert nulls[..] == Bitmap(values, 0);
    for i := 0 to |values|
      invariant nulls[..] == Bitmap(values, i) && BadNull(cols, values, i).None?
    {
      BitmapStep(values, i);
      if values[i].Null? {
        if !cols[i].nullable {
          BadNullStands(cols, values, i + 1, |cols|);
          return Err(NotNull(i));
        }
        assert nulls[i / 8] == nulls[..][i / 8];
        nulls[i / 8] := OrBit(nulls[i / 8], i % 8);
      }
    }
    r := Ok(nulls[..]);
  }

  lemma BitmapOfNothing(values: seq<Value>)
    ensures forall j :: 0 <= j < (|values| + 7) / 8 ==> Bitmap(values, 0)[j] == 0
  {
    forall j | 0 <= j < (|values| + 7) / 8 ensures Bitmap(values, 0)[j] == 0 {
      NoFlags(Flags(values, j, 0));
    }
  }

  lemma {:induction false} NoFlags(f: seq<bool>)
    requires forall i :: 0 <= i < |f| ==> !f[i]
    ensures Pack(f) == 0
  {
    if f != [] {
      NoFlags(f[1..]);
    }
  }

  lemma {:induction false} BadNullStands(cols: seq<Column>, values: seq<Value>, n: nat, m: nat)
    requires |cols| == |values| && n <= m <= |cols| && BadNull(cols, values, n).Some?
    ensures BadNull(cols, values, m) == BadNull(cols, values, n)
    decreases m
  {
    if n < m {
      BadNullStands(cols, values, n, m - 1);
    }
  }

  /** Taking value i into account sets its bit, or changes nothing. */
  lemma BitmapStep(values: seq<Value>, i: nat)
    requires i < |values|
    ensures i / 8 < (|values| + 7) / 8
    ensures values[i].Null? ==>
              && OrBit(Bitmap(values, i)[i / 8], i % 8) < 256
              && Bitmap(values, i + 1) == Bitmap(values, i)[i / 8 := OrBit(Bitmap(values, i)[i / 8], i % 8)]
    ensures values[i].Present? ==> Bitmap(values, i + 1) == Bitmap(values, i)
  {
    forall j | 0 <= j < (|values| + 7) / 8
      ensures FlagByte(values, j, i + 1)
              == if j == i / 8 && values[i].Null? then OrBit(FlagByte(values, j, i), i % 8) else FlagByte(values, j, i)
    {
      FlagStep(values, i, j);
    }
  }

  lemma FlagStep(values: seq<Value>, i: nat, j: nat)
    requires i < |values|
    ensures FlagByte(values, j, i + 1)
            == if j == i / 8 && values[i].Null? then OrBit(FlagByte(values, j, i), i % 8) else FlagByte(values, j, i)
  {
    var f, f' := Flags(values, j, i), Flags(values, j, i + 1);
    assert i == 8 * (i / 8) + i % 8;
    forall k | 0 <= k < 8
      ensures f[k] == (8 * j + k < i && NullAt(values, 8 * j + k))
      ensures f'[k] == (8 * j + k < i + 1 && NullAt(values, 8 * j + k))
      ensures 8 * j + k == i <==> j == i / 8 && k == i % 8
    {
    }
    if j == i / 8 && values[i].Null? {
      assert f' == f[i % 8 := true];
      OrBitPacks(f, i % 8);
    } else {
      assert f' == f;
    }
  }

  method DecodeRow(cols: seq<Column>, b: Text) returns (r: Result<seq<Value>, Error>)
    ensures r == Decoded(cols, b)
  {
    var n := (|cols| + 7) / 8;
    if |b| < 1 + n {
      return Err(TooShort);
    }
    if b[0] != ROW_FORMAT {
      return Err(Format);
    }
    var nulls, rest := b[1..1 + n], b[1 + n..];
    var values: seq<Value> := [];
    PrependNothing(DecodeFrom(cols, nulls, rest, 0));
    for i := 0 to |cols|
      invariant Prepend(values, DecodeFrom(cols, nulls, rest, i)) == Decoded(cols, b)
    {
      if Marked(nulls, i) {
        if !cols[i].nullable {
          return Err(NotNull(i));
        }
        PrependTwice(values, [Null], DecodeFrom(cols, nulls, rest, i + 1));
        values := values + [Null];
      } else {
        var length := Uvarint(rest);
        if length.None? {
          return Err(TruncatedLength(i));
        }
        var (size, used) := length.value;
        if |rest| - used < size {
          return Err(TruncatedValue(i));
        }
        PrependTwice(values, [Present(rest[used..used + size])], DecodeFrom(cols, nulls, rest[used + size..], i + 1));
        values := values + [Present(rest[used..used + size])];
        rest := rest[used + size..];
      }
    }
    if rest != [] {
      return Err(LeftOver);
    }
    assert values + [] == values;
    r := Ok(values);
  }

  lemma PrependNothing(r: Result<seq<Value>, Error>)
    ensures Prepend([], r) == r
  {
    if r.Ok? {
      assert [] + r.value == r.value;
    }
  }

  lemma PrependTwice(a: seq<Value>, b: seq<Value>, r: Result<seq<Value>, Error>)
    ensures Prepend(a, Prepend(b, r)) == Prepend(a + b, r)
  {
    if r.Ok? {
      assert a + (b + r.value) == a + b + r.value;
    }
  }
}
