/**
 Byte strings: their lexicographic order, and decimal numerals.

 Go and Lua strings are byte strings and compare byte by byte; versions cross into Lua as padded
 numerals (internal/cache/version.go), integer columns are plain ones (internal/schema/row.go).
 */
module Bytes {

  type byte = b: int | 0 <= b < 256

  type Text = seq<byte>

  // ---- order ----

  predicate Less(a: Text, b: Text) {
    b != [] && (a == [] || a[0] < b[0] || (a[0] == b[0] && Less(a[1..], b[1..])))
  }

  lemma {:induction false} LessTotal(a: Text, b: Text)
    ensures a == b || Less(a, b) || Less(b, a)
    ensures !(Less(a, b) && Less(b, a))
    ensures !Less(a, a)
    decreases a
  {
    if a != [] {
      LessTotal(a[1..], a[1..]);
      if b != [] {
        LessTotal(a[1..], b[1..]);
        if a[0] == b[0] && a[1..] == b[1..] {
          assert a == [a[0]] + a[1..] == [b[0]] + b[1..] == b;
        }
      }
    }
  }

  lemma {:induction false} LessTransitive(a: Text, b: Text, c: Text)
    requires Less(a, b) && Less(b, c)
    ensures Less(a, c)
  {
    if a != [] && a[0] == b[0] == c[0] {
      LessTransitive(a[1..], b[1..], c[1..]);
    }
  }

  /** Appending one byte to equally long strings decides the order only when they were equal. */
  lemma {:induction false} LessSnoc(a: Text, b: Text, c: byte, d: byte)
    requires |a| == |b|
    ensures Less(a + [c], b + [d]) <==> Less(a, b) || (a == b && c < d)
  {
    if a != [] {
      LessSnoc(a[1..], b[1..], c, d);
      assert (a + [c])[1..] == a[1..] + [c] && (b + [d])[1..] == b[1..] + [d];
      assert a == b <==> a[0] == b[0] && a[1..] == b[1..];
    }
  }

  // ---- decimal numerals ----

  const ZERO: byte := 48

  predicate IsDigit(c: byte) { ZERO <= c <= ZERO + 9 }

  predicate AllDigits(s: Text) { forall i :: 0 <= i < |s| ==> IsDigit(s[i]) }

  function Numeral(v: nat): (d: byte)
    requires v < 10
    ensures IsDigit(d)
  {
    ZERO + v
  }

  function Value(s: Text): nat
    requires AllDigits(s)
  {
    if s == [] then 0 else 10 * Value(s[..|s| - 1]) + (s[|s| - 1] - ZERO)
  }

  function Pow10(n: nat): (p: nat)
    ensures p >= 1
  {
    if n == 0 then 1 else 10 * Pow10(n - 1)
  }

  /** The `width` low decimal digits of v, zero-padded: what "%0*d" prints when v fits. */
  function Padded(v: nat, width: nat): (s: Text)
    ensures |s| == width && AllDigits(s)
  {
    if width == 0 then [] else Padded(v / 10, width - 1) + [Numeral(v % 10)]
  }

  /** The shortest numeral of v: what strconv and appendUintTo print. */
  function Decimal(v: nat): (s: Text)
    ensures s != [] && AllDigits(s)
  {
    if v < 10 then [Numeral(v)] else Decimal(v / 10) + [Numeral(v % 10)]
  }

  lemma {:induction false} ValueOfPadded(v: nat, width: nat)
    requires v < Pow10(width)
    ensures Value(Padded(v, width)) == v
  {
    if width > 0 {
      ValueOfPadded(v / 10, width - 1);
      assert Padded(v, width)[..width - 1] == Padded(v / 10, width - 1);
    }
  }

  lemma {:induction false} ValueOfDecimal(v: nat)
    ensures Value(Decimal(v)) == v
  {
    var s := Decimal(v);
    if v >= 10 {
      ValueOfDecimal(v / 10);
      assert s[..|s| - 1] == Decimal(v / 10);
    } else {
      assert s[..0] == [];
    }
  }

  /** A numeral has few enough digits: v < 10^n needs at most n of them. */
  lemma {:induction false} DecimalLength(v: nat, n: nat)
    requires n > 0 && v < Pow10(n)
    ensures |Decimal(v)| <= n
  {
    if v >= 10 {
      DecimalLength(v / 10, n - 1);
    }
  }

  /** Padding makes the byte order of numerals the numeric order, exactly. */
  lemma {:induction false} PaddedOrder(a: nat, b: nat, width: nat)
    requires a < Pow10(width) && b < Pow10(width)
    ensures Less(Padded(a, width), Padded(b, width)) <==> a < b
    ensures Padded(a, width) == Padded(b, width) <==> a == b
  {
    ValueOfPadded(a, width);
    ValueOfPadded(b, width);
    if width > 0 {
      PaddedOrder(a / 10, b / 10, width - 1);
      LessSnoc(Padded(a / 10, width - 1), Padded(b / 10, width - 1), Numeral(a % 10), Numeral(b % 10));
    }
  }
}
