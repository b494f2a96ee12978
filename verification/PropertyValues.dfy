/** Property values and their two encodings: the order-preserving index key and
    the record text. */
module PropertyValues {
  import opened Basics
  import opened Splitting
  import opened Numerals
  import opened Binary
  import Lexicographic

  const HALF: int := 0x8000_0000_0000_0000

  type I64 = x: int | -0x8000_0000_0000_0000 <= x < 0x8000_0000_0000_0000

  /** A string is its UTF-8 bytes, a float its IEEE 754 bit pattern. */
  datatype PropertyValue =
    | Integer(n: U64)
    | SignedInteger(i: I64)
    | Bool(b: bool)
    | Float(bits: U64)
    | Text(utf8: Bytes)

  // UTF-8.

  predicate Continuation(b: Byte) { 0x80 <= b < 0xC0 }

  /** How many bytes the first character takes, or zero if it is malformed. */
  function CharLen(s: Bytes): nat
    requires s != []
  {
    var a := s[0];
    if a < 0x80 then 1
    else if 0xC2 <= a < 0xE0 then (if |s| >= 2 && Continuation(s[1]) then 2 else 0)
    else if 0xE0 <= a < 0xF0 then
      (if |s| >= 3 && Continuation(s[1]) && Continuation(s[2])
          && (a == 0xE0 ==> s[1] >= 0xA0) && (a == 0xED ==> s[1] < 0xA0) then 3 else 0)
    else if 0xF0 <= a < 0xF5 then
      (if |s| >= 4 && Continuation(s[1]) && Continuation(s[2]) && Continuation(s[3])
          && (a == 0xF0 ==> s[1] >= 0x90) && (a == 0xF4 ==> s[1] < 0x90) then 4 else 0)
    else 0
  }

  /** What `String::from_utf8` accepts. */
  predicate IsUtf8(s: Bytes)
    decreases |s|
  {
    s == [] || (0 < CharLen(s) <= |s| && IsUtf8(s[CharLen(s)..]))
  }

  /** Unicode scalar values: code points without the surrogates. */
  type Scalar = c: int | 0 <= c < 0xD800 || 0xE000 <= c <= 0x10FFFF

  /** The UTF-8 form of one scalar value (section 3 of RFC 3629). */
  function Utf8Of(c: Scalar): (b: Bytes)
    ensures 1 <= |b| <= 4
  {
    if c < 0x80 then [c]
    else if c < 0x800 then [0xC0 + c / 64, 0x80 + c % 64]
    else if c < 0x10000 then [0xE0 + c / 4096, 0x80 + c / 64 % 64, 0x80 + c % 64]
    else [0xF0 + c / 262144, 0x80 + c / 4096 % 64, 0x80 + c / 64 % 64, 0x80 + c % 64]
  }

  function Utf8Text(cs: seq<Scalar>): Bytes {
    if cs == [] then [] else Utf8Of(cs[0]) + Utf8Text(cs[1..])
  }

  /** A scalar value's form in front is recognised at its length. */
  lemma FormRecognised(c: Scalar, rest: Bytes)
    ensures CharLen(Utf8Of(c) + rest) == |Utf8Of(c)| && (Utf8Of(c) + rest)[|Utf8Of(c)|..] == rest
  {
  }

  lemma TwoBytes(a: int, x: int) returns (c: Scalar)
    requires 2 <= a < 32 && 0 <= x < 64
    ensures Utf8Of(c) == [0xC0 + a, 0x80 + x]
  {
    c := a * 64 + x;
  }

  lemma ThreeBytes(a: int, x: int, y: int) returns (c: Scalar)
    requires 0 <= a < 16 && 0 <= x < 64 && 0 <= y < 64 && (a == 0 ==> x >= 32) && (a == 13 ==> x < 32)
    ensures Utf8Of(c) == [0xE0 + a, 0x80 + x, 0x80 + y]
  {
    c := a * 4096 + x * 64 + y;
    assert c / 64 == a * 64 + x && c / 4096 == a;
  }

  lemma FourBytes(a: int, x: int, y: int, z: int) returns (c: Scalar)
    requires 0 <= a < 5 && 0 <= x < 64 && 0 <= y < 64 && 0 <= z < 64 && (a == 0 ==> x >= 16) && (a == 4 ==> x < 16)
    ensures Utf8Of(c) == [0xF0 + a, 0x80 + x, 0x80 + y, 0x80 + z]
  {
    c := a * 262144 + x * 4096 + y * 64 + z;
    assert c / 64 == a * 4096 + x * 64 + y && c / 4096 == a * 64 + x && c / 262144 == a;
  }

  /** Whatever is recognised in front is some scalar value's form. */
  lemma RecognisedIsForm(s: Bytes) returns (c: Scalar)
    requires s != [] && CharLen(s) > 0
    ensures CharLen(s) <= |s| && s[..CharLen(s)] == Utf8Of(c)
  {
    var a: int, n := s[0], CharLen(s);
    if n == 1 {
      c := a;
    } else {
      hide Utf8Of;
      var x: int := s[1] - 0x80;
      if n == 2 {
        c := TwoBytes(a - 0xC0, x);
      } else if n == 3 {
        c := ThreeBytes(a - 0xE0, x, s[2] - 0x80);
      } else {
        c := FourBytes(a - 0xF0, x, s[2] - 0x80, s[3] - 0x80);
      }
    }
  }

  lemma {:induction false} TextIsUtf8(cs: seq<Scalar>)
    ensures IsUtf8(Utf8Text(cs))
    decreases |cs|
  {
    hide CharLen, Utf8Of;
    if cs != [] {
      FormRecognised(cs[0], Utf8Text(cs[1..]));
      TextIsUtf8(cs[1..]);
    }
  }

  lemma {:induction false} Utf8IsText(s: Bytes) returns (cs: seq<Scalar>)
    requires IsUtf8(s)
    ensures Utf8Text(cs) == s
    decreases |s|
  {
    hide CharLen, Utf8Of;
    if s == [] {
      cs := [];
    } else {
      var c := RecognisedIsForm(s);
      var rest := Utf8IsText(s[CharLen(s)..]);
      cs := [c] + rest;
      assert cs[1..] == rest && s == s[..CharLen(s)] + s[CharLen(s)..];
    }
  }

  /** Accepted are exactly the UTF-8 texts. */
  lemma Utf8Exactly(s: Bytes)
    ensures IsUtf8(s) <==> exists cs :: Utf8Text(cs) == s
  {
    hide IsUtf8, Utf8Text;
    if IsUtf8(s) { var _ := Utf8IsText(s); }
    if cs :| Utf8Text(cs) == s { TextIsUtf8(cs); }
  }

  predicate ValidValue(v: PropertyValue) { v.Text? ==> IsUtf8(v.utf8) }

  // Hexadecimal.

  /** `hex_encode`. */
  function HexEncode(b: Bytes): (s: string)
    ensures |s| == 2 * |b|
  {
    if b == [] then "" else Fixed(b[0], 2, 16) + HexEncode(b[1..])
  }

  /** `hex_decode`: digit pairs of either case. */
  function HexDecode(s: string): Result<Bytes> {
    if s == "" then Ok([])
    else if |s| == 1 then Err(CorruptValue)
    else
      var high, low := DigitValue(s[0], 16), DigitValue(s[1], 16);
      if high.None? || low.None? then Err(CorruptValue)
      else
        var rest :- HexDecode(s[2..]);
        Ok([16 * high.value + low.value] + rest)
  }

  lemma ByteDigits(b: Byte)
    ensures Fixed(b, 2, 16) == [DigitChar(b / 16), DigitChar(b % 16)]
  {
    var high := b / 16;
    assert Fixed(b, 2, 16) == Fixed(high, 1, 16) + [DigitChar(b % 16)];
    assert Fixed(high, 1, 16) == [] + [DigitChar(high % 16)];
    assert high % 16 == high;
  }

  /** Decoded are exactly the digits of the bytes, in either case. */
  lemma {:induction false} HexExactly(s: string, b: Bytes)
    ensures HexDecode(s) == Ok(b) <==> Lowered(s) == HexEncode(b)
    decreases |s|
  {
    hide DigitValue, LowerChar, DigitChar, Fixed;
    if |s| >= 2 {
      if b != [] {
        ByteDigits(b[0]);
        HexExactly(s[2..], b[1..]);
        assert Lowered(s) == [LowerChar(s[0]), LowerChar(s[1])] + Lowered(s[2..]);
        assert HexEncode(b) == [DigitChar(b[0] / 16), DigitChar(b[0] % 16)] + HexEncode(b[1..]);
        TwoDigits(s[0], s[1], b[0]);
        PairFirst(LowerChar(s[0]), LowerChar(s[1]), Lowered(s[2..]), DigitChar(b[0] / 16), DigitChar(b[0] % 16),
                  HexEncode(b[1..]));
        assert b == [b[0]] + b[1..];
      }
    }
  }

  lemma PairFirst(a: char, b: char, s: string, c: char, d: char, t: string)
    ensures [a, b] + s == [c, d] + t <==> a == c && b == d && s == t
  {
    if [a, b] + s == [c, d] + t {
      assert ([a, b] + s)[0] == ([c, d] + t)[0] && ([a, b] + s)[1] == ([c, d] + t)[1];
      assert ([a, b] + s)[2..] == ([c, d] + t)[2..];
    }
  }

  lemma TwoDigits(high: char, low: char, b: Byte)
    ensures LowerChar(high) == DigitChar(b / 16) && LowerChar(low) == DigitChar(b % 16) <==>
              DigitValue(high, 16).Some? && DigitValue(low, 16).Some?
              && 16 * DigitValue(high, 16).value + DigitValue(low, 16).value == b
  {
    DigitIsChar(high, 16);
    DigitIsChar(low, 16);
    DigitRoundTrip(b / 16, 16);
    DigitRoundTrip(b % 16, 16);
  }

  lemma {:induction false} HexRoundTrip(b: Bytes)
    ensures HexDecode(HexEncode(b)) == Ok(b)
  {
    if b != [] {
      ByteDigits(b[0]);
      DigitRoundTrip(b[0] / 16, 16);
      DigitRoundTrip(b[0] % 16, 16);
      var s := HexEncode(b);
      assert s[0] == DigitChar(b[0] / 16) && s[1] == DigitChar(b[0] % 16) && s[2..] == HexEncode(b[1..]);
      HexRoundTrip(b[1..]);
      assert 16 * (b[0] / 16) + b[0] % 16 == b[0];
      assert b == [b[0]] + b[1..];
    }
  }

  method HexEncodeLoop(b: Bytes) returns (out: string)
    ensures out == HexEncode(b)
  {
    out := "";
    for i := 0 to |b|
      invariant out + HexEncode(b[i..]) == HexEncode(b)
    {
      ByteDigits(b[i]);
      assert b[i..][1..] == b[i + 1..];
      out := out + [DigitChar(b[i] / 16)] + [DigitChar(b[i] % 16)];
    }
  }

  // Index keys.

  /** Flipping the top bit turns two's complement into unsigned order. */
  function SignedKey(i: I64): U64 { i + HALF }

  /** `sortable_float_bits`: flip the sign of a positive pattern, complement a
      negative one. */
  function SortableFloatBits(bits: U64): U64 {
    if bits < HALF then bits + HALF else U64_MAX - bits
  }

  function IndexKey(v: PropertyValue): string {
    match v
    case Integer(n) => "i" + Pad20(n)
    case SignedInteger(i) => "j" + Hex16(SignedKey(i))
    case Bool(b) => if b then "b1" else "b0"
    case Float(bits) => "n" + Hex16(SortableFloatBits(bits))
    case Text(utf8) => "s" + HexEncode(utf8)
  }

  /** Bytes as characters of the same number, to order them like text. */
  function AsText(b: Bytes): (s: string)
    ensures |s| == |b| && forall i :: 0 <= i < |s| ==> s[i] == b[i] as char
  {
    seq(|b|, i requires 0 <= i < |b| => b[i] as char)
  }

  /** totalOrder of section 5.10 of IEEE 754-2019 on bit patterns: negative
      before positive, by magnitude on either side, so that NaNs lie outside the
      infinities and -0 before +0. */
  predicate TotalOrderLess(a: U64, b: U64) {
    if a >= HALF && b >= HALF then a > b
    else if a < HALF && b < HALF then a < b
    else a >= HALF
  }

  /** The order of two values of one type. */
  predicate ValueLess(a: PropertyValue, b: PropertyValue) {
    match (a, b)
    case (Integer(m), Integer(n)) => m < n
    case (SignedInteger(i), SignedInteger(j)) => i < j
    case (Bool(x), Bool(y)) => !x && y
    case (Float(x), Float(y)) => TotalOrderLess(x, y)
    case (Text(x), Text(y)) => Lexicographic.Less(AsText(x), AsText(y))
    case _ => false
  }

  predicate SameType(a: PropertyValue, b: PropertyValue) {
    (a.Integer? && b.Integer?) || (a.SignedInteger? && b.SignedInteger?) || (a.Bool? && b.Bool?)
    || (a.Float? && b.Float?) || (a.Text? && b.Text?)
  }

  lemma {:induction false} HexOrder(a: Bytes, b: Bytes)
    ensures Lexicographic.Less(HexEncode(a), HexEncode(b)) <==> Lexicographic.Less(AsText(a), AsText(b))
    ensures HexEncode(a) == HexEncode(b) ==> a == b
  {
    if a != [] && b != [] {
      var x, y := Fixed(a[0], 2, 16), Fixed(b[0], 2, 16);
      assert Pow(16, 2) == 256 by { assert Pow(16, 1) == 16; }
      FixedOrder(a[0], b[0], 2, 16);
      HexOrder(a[1..], b[1..]);
      assert AsText(a)[1..] == AsText(a[1..]) && AsText(b)[1..] == AsText(b[1..]);
      hide Fixed;
      Lexicographic.ConcatOrder(x, HexEncode(a[1..]), y, HexEncode(b[1..]));
      assert HexEncode(a) == HexEncode(b) ==>
          HexEncode(a)[..2] == HexEncode(b)[..2] && HexEncode(a)[2..] == HexEncode(b)[2..];
      assert HexEncode(a)[..2] == x && HexEncode(b)[..2] == y;
      assert HexEncode(a)[2..] == HexEncode(a[1..]) && HexEncode(b)[2..] == HexEncode(b[1..]);
      assert a == [a[0]] + a[1..] && b == [b[0]] + b[1..];
    }
  }

  lemma TaggedOrder(tag: char, u: string, v: string)
    ensures Lexicographic.Less([tag] + u, [tag] + v) <==> Lexicographic.Less(u, v)
    ensures [tag] + u == [tag] + v <==> u == v
  {
    Lexicographic.CommonPrefix([tag], u, v);
    assert u == ([tag] + u)[1..] && v == ([tag] + v)[1..];
  }

  /** Within each type, byte order of index keys is value order. */
  lemma IndexKeyOrder(a: PropertyValue, b: PropertyValue)
    requires SameType(a, b)
    ensures Lexicographic.Less(IndexKey(a), IndexKey(b)) <==> ValueLess(a, b)
    ensures IndexKey(a) == IndexKey(b) ==> a == b
  {
    hide Pad20, Hex16, HexEncode, Lexicographic.Less;
    match a
    case Integer(m) =>
      Pad20Order(m, b.n);
      TaggedOrder('i', Pad20(m), Pad20(b.n));
    case SignedInteger(i) =>
      Hex16Order(SignedKey(i), SignedKey(b.i));
      TaggedOrder('j', Hex16(SignedKey(i)), Hex16(SignedKey(b.i)));
    case Bool(x) =>
      BoolOrder(x, b.b);
    case Float(x) =>
      Hex16Order(SortableFloatBits(x), SortableFloatBits(b.bits));
      TaggedOrder('n', Hex16(SortableFloatBits(x)), Hex16(SortableFloatBits(b.bits)));
    case Text(x) =>
      HexOrder(x, b.utf8);
      TaggedOrder('s', HexEncode(x), HexEncode(b.utf8));
  }

  lemma BoolOrder(x: bool, y: bool)
    ensures var f := (z: bool) => if z then "b1" else "b0";
            && (Lexicographic.Less(f(x), f(y)) <==> !x && y)
            && (f(x) == f(y) ==> x == y)
  {
    TaggedOrder('b', if x then "1" else "0", if y then "1" else "0");
    assert Lexicographic.Less("0", "1") && !Lexicographic.Less("1", "0");
    Lexicographic.Irreflexive("0");
    Lexicographic.Irreflexive("1");
    assert "b" + "1" == "b1" && "b" + "0" == "b0";
    assert ("b1")[1] != ("b0")[1];
  }

  /** Index keys tell all values apart, across types as well. */
  lemma IndexKeyInjective(a: PropertyValue, b: PropertyValue)
    requires IndexKey(a) == IndexKey(b)
    ensures a == b
  {
    assert IndexKey(a)[0] == IndexKey(b)[0];
    assert SameType(a, b);
    IndexKeyOrder(a, b);
  }

  // What the order means for numbers.

  const MANTISSA: int := 0x10_0000_0000_0000

  function Exponent(bits: U64): nat { bits % HALF / MANTISSA }

  function Fraction(bits: U64): nat { bits % HALF % MANTISSA }

  predicate Finite(bits: U64) { Exponent(bits) < 2047 }

  /** The magnitude of a finite pattern in units of the smallest subnormal. */
  function Magnitude(bits: U64): nat {
    if Exponent(bits) == 0 then Fraction(bits)
    else (MANTISSA + Fraction(bits)) * Pow(2, Exponent(bits) - 1)
  }

  /** The number a finite pattern stands for, in the same units. */
  function Number(bits: U64): int { if bits < HALF then Magnitude(bits) else 0 - Magnitude(bits) }

  lemma {:induction false} PowGrows(a: nat, b: nat)
    requires a <= b
    ensures Pow(2, a) <= Pow(2, b)
    decreases b
  {
    if a < b { PowGrows(a, b - 1); }
  }

  lemma SplitBits(m: nat)
    requires m < HALF
    ensures m == MANTISSA * (m / MANTISSA) + m % MANTISSA && m % HALF == m
  {
  }

  lemma Scale(a: nat, b: nat, p: nat)
    requires a < b && p > 0
    ensures a * p < b * p
  {
    assert b * p - a * p == (b - a) * p;
    assert (b - a) * p >= p by { assert (b - a) * p == p + (b - a - 1) * p; }
  }

  /** Larger patterns have larger magnitudes. */
  lemma MagnitudeGrows(a: U64, b: U64)
    requires a < b < HALF
    ensures Magnitude(a) < Magnitude(b)
  {
    SplitBits(a);
    SplitBits(b);
    hide Pow;
    var ea, eb, fa, fb := Exponent(a), Exponent(b), Fraction(a), Fraction(b);
    assert fa < MANTISSA && fb < MANTISSA;
    assert ea <= eb;
    if ea == eb {
      assert fa < fb;
      if ea > 0 { Scale(MANTISSA + fa, MANTISSA + fb, Pow(2, ea - 1)); }
    } else if ea == 0 {
      PowAtLeastOne(eb - 1);
      MulAtLeast(MANTISSA + fb, Pow(2, eb - 1));
    } else {
      var p := Pow(2, ea - 1);
      PowStep2(ea - 1);
      PowGrows(ea, eb - 1);
      PowAtLeastOne(ea - 1);
      Scale(MANTISSA + fa, 2 * MANTISSA, p);
      assert 2 * MANTISSA * p == MANTISSA * (2 * p);
      MulMonotone(MANTISSA, Pow(2, ea), MANTISSA + fb, Pow(2, eb - 1));
    }
  }

  lemma PowAtLeastOne(e: nat)
    ensures Pow(2, e) >= 1
  {
  }

  lemma PowStep2(e: nat)
    ensures Pow(2, e + 1) == 2 * Pow(2, e)
  {
  }

  lemma MulAtLeast(x: nat, p: nat)
    requires p >= 1
    ensures x * p >= x
  {
    assert x * p == x + x * (p - 1);
  }

  lemma MulMonotone(a: nat, p: nat, b: nat, q: nat)
    requires a <= b && p <= q
    ensures a * p <= b * q
  {
    assert b * q - a * p == (b - a) * q + a * (q - p);
    assert (b - a) * q >= 0 && a * (q - p) >= 0;
  }

  lemma SignlessMagnitude(bits: U64)
    requires bits >= HALF
    ensures Magnitude(bits) == Magnitude(bits - HALF)
  {
    hide Pow;
    assert bits % HALF == bits - HALF == (bits - HALF) % HALF;
  }

  /** On finite floats the key order is numeric order, with -0 just before +0. */
  lemma FloatKeyIsNumeric(a: U64, b: U64)
    requires Finite(a) && Finite(b)
    ensures Number(a) < Number(b) ==> TotalOrderLess(a, b)
    ensures TotalOrderLess(a, b) ==> Number(a) < Number(b) || (Number(a) == Number(b) == 0 && a == HALF && b == 0)
  {
    hide Magnitude, Exponent, Fraction;
    var x := if a < HALF then a else a - HALF;
    var y := if b < HALF then b else b - HALF;
    if a >= HALF { SignlessMagnitude(a); }
    if b >= HALF { SignlessMagnitude(b); }
    if x < y { MagnitudeGrows(x, y); }
    if y < x { MagnitudeGrows(y, x); }
    if 0 < x { MagnitudeGrows(0, x); }
    if 0 < y { MagnitudeGrows(0, y); }
    ZeroMagnitude();
  }

  /** Infinities and NaNs lie outside the finite floats, on the side of their
      sign bit. */
  lemma SpecialsOutside(a: U64, b: U64)
    requires Finite(a) && !Finite(b)
    ensures TotalOrderLess(a, b) <==> b < HALF
    ensures TotalOrderLess(b, a) <==> b >= HALF
  {
    SplitBits(a % HALF);
    SplitBits(b % HALF);
    assert a % HALF < 2047 * MANTISSA <= b % HALF;
  }

  lemma ZeroMagnitude()
    ensures Magnitude(0) == 0
  {
  }
}
