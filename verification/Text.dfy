/** Separators: `str::split` and its inverse, and the prefix facts that make
    separator-terminated prefixes select whole components. */
module Splitting {
  import opened Basics

  function IndexOf(s: string, c: char): (i: nat)
    requires c in s
    ensures i < |s| && s[i] == c && c !in s[..i]
  {
    if s[0] == c then 0
    else
      var k := IndexOf(s[1..], c);
      assert s[..k + 1] == [s[0]] + s[1..][..k];
      k + 1
  }

  /** `str::split(c)`: never empty, one part more than there are separators. */
  function Split(s: string, c: char): (parts: seq<string>)
    ensures |parts| >= 1
    decreases |s|
  {
    if c in s then
      var i := IndexOf(s, c);
      [s[..i]] + Split(s[i + 1..], c)
    else [s]
  }

  function Join(parts: seq<string>, c: char): string
    requires parts != []
  {
    if |parts| == 1 then parts[0] else parts[0] + [c] + Join(parts[1..], c)
  }

  ghost predicate Free(parts: seq<string>, c: char) {
    forall p :: p in parts ==> c !in p
  }

  lemma IndexOfConcat(p: string, c: char, rest: string)
    requires c !in p
    ensures c in p + [c] + rest
    ensures IndexOf(p + [c] + rest, c) == |p|
  {
    var s := p + [c] + rest;
    assert s[|p|] == c;
    var i := IndexOf(s, c);
    assert forall k :: 0 <= k < |p| ==> s[k] == p[k] && p[k] in p;
    assert forall k :: 0 <= k < i ==> s[k] in s[..i];
  }

  lemma SplitConcat(p: string, c: char, rest: string)
    requires c !in p
    ensures Split(p + [c] + rest, c) == [p] + Split(rest, c)
  {
    var s := p + [c] + rest;
    IndexOfConcat(p, c, rest);
    assert s[..|p|] == p;
    assert s[|p| + 1..] == rest;
  }

  /** Splitting undoes joining for parts free of the separator. */
  lemma {:induction false} SplitJoin(parts: seq<string>, c: char)
    requires parts != [] && Free(parts, c)
    ensures Split(Join(parts, c), c) == parts
  {
    if |parts| > 1 {
      SplitConcat(parts[0], c, Join(parts[1..], c));
      SplitJoin(parts[1..], c);
    } else {
      assert parts == [parts[0]];
    }
  }

  /** Joining undoes splitting, for every text. */
  lemma {:induction false} JoinSplit(s: string, c: char)
    ensures Join(Split(s, c), c) == s
    ensures Free(Split(s, c), c)
    decreases |s|
  {
    if c in s {
      var i := IndexOf(s, c);
      JoinSplit(s[i + 1..], c);
      assert Split(s, c)[1..] == Split(s[i + 1..], c);
      assert s == s[..i] + [c] + s[i + 1..];
    }
  }

  lemma JoinInjective(a: seq<string>, b: seq<string>, c: char)
    requires a != [] && Free(a, c) && b != [] && Free(b, c)
    requires Join(a, c) == Join(b, c)
    ensures a == b
  {
    SplitJoin(a, c);
    SplitJoin(b, c);
  }

  lemma {:induction false} JoinConcat(a: seq<string>, b: seq<string>, c: char)
    requires a != [] && b != []
    ensures Join(a + b, c) == Join(a, c) + [c] + Join(b, c)
  {
    if |a| == 1 {
      assert (a + b)[1..] == b;
    } else {
      assert (a + b)[1..] == a[1..] + b;
      JoinConcat(a[1..], b, c);
      assert a[0] + [c] + (Join(a[1..], c) + [c] + Join(b, c))
          == (a[0] + [c] + Join(a[1..], c)) + [c] + Join(b, c);
    }
  }

  lemma {:induction false} SplitOfExtension(a: seq<string>, rest: string, c: char)
    requires a != [] && Free(a, c)
    ensures Split(Join(a, c) + [c] + rest, c) == a + Split(rest, c)
  {
    var tail := Split(rest, c);
    JoinSplit(rest, c);
    JoinConcat(a, tail, c);
    SplitJoin(a + tail, c);
  }

  /** A terminated prefix matches exactly the texts that continue the same
      component list. */
  lemma TerminatedPrefix(a: seq<string>, b: seq<string>, c: char)
    requires a != [] && Free(a, c) && b != [] && Free(b, c)
    ensures Join(a, c) + [c] <= Join(b, c) <==> a < b
  {
    var p, s := Join(a, c) + [c], Join(b, c);
    if p <= s {
      var rest := s[|p|..];
      assert s == Join(a, c) + [c] + rest;
      SplitOfExtension(a, rest, c);
      SplitJoin(b, c);
      assert b == a + Split(rest, c);
    }
    if a < b {
      var rest := b[|a|..];
      assert b == a + rest;
      JoinConcat(a, rest, c);
    }
  }

  /** `trim_end_matches(c)`. */
  function TrimEnd(s: string, c: char): string {
    if s != [] && s[|s| - 1] == c then TrimEnd(s[..|s| - 1], c) else s
  }

  lemma {:induction false} JoinEnd(parts: seq<string>, c: char, e: char)
    requires parts != [] && c != e && Free(parts, e)
    ensures e !in Join(parts, c)
  {
    if |parts| > 1 {
      JoinEnd(parts[1..], c, e);
    } else {
      assert parts[0] in parts;
    }
  }

  /** A record line: fields separated by tabs, closed by a newline. */
  function RecordLine(fields: seq<string>): string
    requires fields != []
  {
    Join(fields, '\t') + "\n"
  }

  function RecordFields(text: string): (parts: seq<string>)
    ensures |parts| >= 1
  {
    Split(TrimEnd(text, '\n'), '\t')
  }

  lemma RecordRoundTrip(fields: seq<string>)
    requires fields != [] && Free(fields, '\t') && Free(fields, '\n')
    ensures RecordFields(RecordLine(fields)) == fields
  {
    var body := Join(fields, '\t');
    JoinEnd(fields, '\t', '\n');
    var line := RecordLine(fields);
    assert line[..|line| - 1] == body;
    assert body != [] ==> body[|body| - 1] in body;
    assert TrimEnd(body, '\n') == body;
    SplitJoin(fields, '\t');
  }
}

/** Byte order of texts. */
module Lexicographic {
  predicate Less(a: string, b: string) {
    b != [] && (a == [] || a[0] < b[0] || (a[0] == b[0] && Less(a[1..], b[1..])))
  }

  lemma {:induction false} Irreflexive(a: string)
    ensures !Less(a, a)
  {
    if a != [] { Irreflexive(a[1..]); }
  }

  lemma {:induction false} Trichotomy(a: string, b: string)
    ensures Less(a, b) || a == b || Less(b, a)
    ensures !(Less(a, b) && Less(b, a))
    ensures Less(a, b) ==> a != b
  {
    if a != [] && b != [] {
      Trichotomy(a[1..], b[1..]);
      assert a == [a[0]] + a[1..] && b == [b[0]] + b[1..];
    }
  }

  lemma {:induction false} Transitive(a: string, b: string, c: string)
    requires Less(a, b) && Less(b, c)
    ensures Less(a, c)
  {
    if a != [] && a[0] == b[0] && b[0] == c[0] {
      Transitive(a[1..], b[1..], c[1..]);
    }
  }

  /** Equal-width heads decide first; equal heads defer to the tails. */
  lemma {:induction false} ConcatOrder(x: string, u: string, y: string, v: string)
    requires |x| == |y|
    ensures Less(x + u, y + v) <==> Less(x, y) || (x == y && Less(u, v))
  {
    if x == [] {
      assert x + u == u && y + v == v;
    } else {
      assert (x + u)[1..] == x[1..] + u && (y + v)[1..] == y[1..] + v;
      assert x == [x[0]] + x[1..] && y == [y[0]] + y[1..];
      ConcatOrder(x[1..], u, y[1..], v);
    }
  }

  lemma CommonPrefix(p: string, u: string, v: string)
    ensures Less(p + u, p + v) <==> Less(u, v)
  {
    Irreflexive(p);
    ConcatOrder(p, u, p, v);
  }
}

/** Decimal and hexadecimal numerals: `Display`, the zero-padded widths used in
    keys, and `str::parse`. */
module Numerals {
  import opened Basics
  import Lexicographic

  function Pow(b: nat, e: nat): (r: nat)
    ensures b > 0 ==> r > 0
  {
    if e == 0 then 1 else b * Pow(b, e - 1)
  }

  /** A radix this code formats in: decimal or lower-case hexadecimal. */
  type Radix = r: int | r == 10 || r == 16 witness 10

  function DigitChar(d: nat): (c: char)
    requires d < 16
  {
    if d < 10 then ('0' as int + d) as char else ('a' as int + d - 10) as char
  }

  /** The value of one digit; upper-case hexadecimal digits are accepted on
      input, as by `from_str_radix` and `hex_value`. */
  function DigitValue(c: char, r: Radix): (d: Option<nat>)
    ensures d.Some? ==> d.value < r
  {
    if '0' <= c <= '9' then Some(c as int - '0' as int)
    else if r == 16 && 'a' <= c <= 'f' then Some(c as int - 'a' as int + 10)
    else if r == 16 && 'A' <= c <= 'F' then Some(c as int - 'A' as int + 10)
    else None
  }

  lemma DigitRoundTrip(d: nat, r: Radix)
    requires d < r
    ensures DigitValue(DigitChar(d), r) == Some(d)
  {
  }

  predicate AllDigits(s: string, r: Radix) {
    forall i :: 0 <= i < |s| ==> DigitValue(s[i], r).Some?
  }

  function Value(s: string, r: Radix): nat
    requires AllDigits(s, r)
  {
    if s == [] then 0
    else r * Value(s[..|s| - 1], r) + DigitValue(s[|s| - 1], r).value
  }

  /** Exactly `w` digits, most significant first: `{n:0w}` when `n` fits. */
  function Fixed(n: nat, w: nat, r: Radix): (s: string)
    ensures |s| == w
  {
    if w == 0 then [] else Fixed(n / r, w - 1, r) + [DigitChar(n % r)]
  }

  /** `Display` of an unsigned number: no leading zeros. */
  function Digits(n: nat, r: Radix): (s: string)
    ensures s != []
  {
    if n < r then [DigitChar(n)] else Digits(n / r, r) + [DigitChar(n % r)]
  }

  lemma ValueSnoc(s: string, d: nat, r: Radix)
    requires AllDigits(s, r) && d < r
    ensures AllDigits(s + [DigitChar(d)], r)
    ensures Value(s + [DigitChar(d)], r) == r * Value(s, r) + d
  {
    var t := s + [DigitChar(d)];
    DigitRoundTrip(d, r);
    assert t[..|t| - 1] == s;
  }

  lemma PowStep(n: nat, w: nat, r: Radix)
    requires w > 0 && n < Pow(r, w)
    ensures n / r < Pow(r, w - 1)
  {
    var q := Pow(r, w - 1);
    assert Pow(r, w) == r * q;
    var h := n / r;
    assert n >= r * h;
    assert r * h - r * q == r * (h - q);
  }

  lemma {:induction false} FixedValue(n: nat, w: nat, r: Radix)
    requires n < Pow(r, w)
    ensures AllDigits(Fixed(n, w, r), r) && Value(Fixed(n, w, r), r) == n
  {
    if w > 0 {
      PowStep(n, w, r);
      FixedValue(n / r, w - 1, r);
      ValueSnoc(Fixed(n / r, w - 1, r), n % r, r);
    }
  }

  lemma {:induction false} DigitsValue(n: nat, r: Radix)
    ensures AllDigits(Digits(n, r), r) && Value(Digits(n, r), r) == n
  {
    if n < r {
      ValueSnoc("", n, r);
      assert "" + [DigitChar(n)] == Digits(n, r);
    } else {
      DigitsValue(n / r, r);
      ValueSnoc(Digits(n / r, r), n % r, r);
    }
  }

  lemma DigitwiseOrder(n: nat, m: nat, r: Radix)
    ensures n < m <==> n / r < m / r || (n / r == m / r && n % r < m % r)
    ensures n == m <==> n / r == m / r && n % r == m % r
  {
    if r == 10 { } else { }
  }

  lemma FixedSnocOrder(x: string, a: nat, y: string, b: nat)
    requires |x| == |y| && a < 16 && b < 16
    ensures Lexicographic.Less(x + [DigitChar(a)], y + [DigitChar(b)])
       <==> Lexicographic.Less(x, y) || (x == y && a < b)
    ensures x + [DigitChar(a)] == y + [DigitChar(b)] <==> x == y && a == b
  {
    var u, v := [DigitChar(a)], [DigitChar(b)];
    Lexicographic.ConcatOrder(x, u, y, v);
    assert Lexicographic.Less(u, v) <==> u[0] < v[0];
    assert (x + u)[..|x|] == x && (y + v)[..|x|] == y;
    assert (x + u)[|x|] == u[0] && (y + v)[|x|] == v[0];
  }

  /** For numbers that fit the width, byte order of the padded numerals is
      numeric order. */
  lemma {:induction false} FixedOrder(n: nat, m: nat, w: nat, r: Radix)
    requires n < Pow(r, w) && m < Pow(r, w)
    ensures Lexicographic.Less(Fixed(n, w, r), Fixed(m, w, r)) <==> n < m
    ensures Fixed(n, w, r) == Fixed(m, w, r) <==> n == m
  {
    if w > 0 {
      PowStep(n, w, r);
      PowStep(m, w, r);
      FixedOrder(n / r, m / r, w - 1, r);
      FixedSnocOrder(Fixed(n / r, w - 1, r), n % r, Fixed(m / r, w - 1, r), m % r);
      DigitwiseOrder(n, m, r);
    }
  }

  // The widths used by the keys.

  function Pad20(n: U64): (s: string)
    ensures |s| == 20
  {
    Fixed(n, 20, 10)
  }

  function Hex16(n: U64): (s: string)
    ensures |s| == 16
  {
    Fixed(n, 16, 16)
  }

  lemma FitsWidths()
    ensures Pow(10, 20) > U64_MAX && Pow(16, 16) == U64_MAX + 1
  {
    assert Pow(10, 5) == 100_000;
    assert Pow(10, 10) == 100_000 * Pow(10, 5);
    assert Pow(10, 15) == 100_000 * Pow(10, 10);
    assert Pow(10, 20) == 100_000 * Pow(10, 15);
    assert Pow(16, 4) == 0x1_0000;
    assert Pow(16, 8) == 0x1_0000 * Pow(16, 4);
    assert Pow(16, 12) == 0x1_0000 * Pow(16, 8);
    assert Pow(16, 16) == 0x1_0000 * Pow(16, 12);
  }

  lemma Pad20Order(n: U64, m: U64)
    ensures Lexicographic.Less(Pad20(n), Pad20(m)) <==> n < m
    ensures Pad20(n) == Pad20(m) <==> n == m
  {
    FitsWidths();
    FixedOrder(n, m, 20, 10);
  }

  lemma Hex16Order(n: U64, m: U64)
    ensures Lexicographic.Less(Hex16(n), Hex16(m)) <==> n < m
    ensures Hex16(n) == Hex16(m) <==> n == m
  {
    FitsWidths();
    FixedOrder(n, m, 16, 16);
  }

  /** `str::parse::<u64>`, and `u64::from_str_radix`: an optional plus sign, at
      least one digit, and a value in range. */
  function ParseUnsigned(s: string, r: Radix): Option<U64> {
    var digits := if s != [] && s[0] == '+' then s[1..] else s;
    if digits != [] && AllDigits(digits, r) && Value(digits, r) <= U64_MAX
    then Some(Value(digits, r))
    else None
  }

  // Which texts are parsed.

  function LowerChar(c: char): char { if 'A' <= c <= 'F' then (c as int + 32) as char else c }

  function Lowered(s: string): (r: string)
    ensures |r| == |s| && forall i :: 0 <= i < |s| ==> r[i] == LowerChar(s[i])
  {
    seq(|s|, i requires 0 <= i < |s| => LowerChar(s[i]))
  }

  function Zeros(k: nat): (s: string)
    ensures |s| == k && forall i :: 0 <= i < k ==> s[i] == '0'
  {
    seq(k, i => '0')
  }

  lemma DigitIsChar(c: char, r: Radix)
    ensures DigitValue(LowerChar(c), r) == DigitValue(c, r)
    ensures DigitValue(c, r).Some? ==> LowerChar(c) == DigitChar(DigitValue(c, r).value)
  {
  }

  lemma {:induction false} LoweredValue(s: string, r: Radix)
    ensures AllDigits(Lowered(s), r) <==> AllDigits(s, r)
    ensures AllDigits(s, r) ==> Value(Lowered(s), r) == Value(s, r)
  {
    hide DigitValue, LowerChar;
    forall i | 0 <= i < |s| ensures DigitValue(Lowered(s)[i], r) == DigitValue(s[i], r) { DigitIsChar(s[i], r); }
    if s != [] {
      LoweredValue(s[..|s| - 1], r);
      assert Lowered(s)[..|s| - 1] == Lowered(s[..|s| - 1]);
    }
  }

  lemma {:induction false} ZerosValue(k: nat, d: string, r: Radix)
    requires AllDigits(d, r)
    ensures AllDigits(Zeros(k) + d, r) && Value(Zeros(k) + d, r) == Value(d, r)
    decreases |d|, k
  {
    var s := Zeros(k) + d;
    if d != [] {
      ZerosValue(k, d[..|d| - 1], r);
      assert s[..|s| - 1] == Zeros(k) + d[..|d| - 1];
    } else if k > 0 {
      ZerosValue(k - 1, d, r);
      assert s[..|s| - 1] == Zeros(k - 1) + d;
      assert s == Zeros(k - 1) + d + "0";
    }
  }

  /** Digits in either case are leading zeros before the number's own. */
  lemma {:induction false} DigitsOfValue(d: string, r: Radix) returns (k: nat)
    requires d != [] && AllDigits(d, r)
    ensures Lowered(d) == Zeros(k) + Digits(Value(d, r), r)
  {
    var front, c := d[..|d| - 1], d[|d| - 1];
    var n, v := Value(d, r), DigitValue(c, r).value;
    DigitIsChar(c, r);
    assert Lowered(d) == Lowered(front) + [LowerChar(c)];
    if front == [] {
      k := 0;
      assert Value(front, r) == 0;
      assert Lowered(d) == Zeros(0) + [DigitChar(n)];
    } else {
      var m := Value(front, r);
      var j := DigitsOfValue(front, r);
      assert n == r * m + v;
      if m > 0 {
        k := j;
        QuotientIs(m, v, r);
        assert Zeros(k) + Digits(m, r) + [DigitChar(v)] == Zeros(k) + (Digits(m, r) + [DigitChar(v)]);
      } else {
        k := j + 1;
        assert Digits(0, r) == "0" && Zeros(j) + "0" == Zeros(k);
      }
    }
  }

  lemma QuotientIs(m: nat, v: nat, r: Radix)
    requires m > 0 && v < r
    ensures (r * m + v) / r == m && (r * m + v) % r == v && r * m + v >= r
  {
  }

  /** The digits of `n` in either case, behind any number of zeros. */
  ghost predicate Spells(d: string, r: Radix, n: nat) { exists k: nat :: Lowered(d) == Zeros(k) + Digits(n, r) }

  lemma SpellsExactly(d: string, r: Radix, n: nat)
    ensures Spells(d, r, n) <==> d != [] && AllDigits(d, r) && Value(d, r) == n
  {
    if d != [] && AllDigits(d, r) && Value(d, r) == n { var _ := DigitsOfValue(d, r); }
    if k: nat :| Lowered(d) == Zeros(k) + Digits(n, r) {
      hide AllDigits, Value, Digits;
      DigitsValue(n, r);
      ZerosValue(k, Digits(n, r), r);
      LoweredValue(d, r);
    }
  }

  /** Parsed as `n` are exactly the texts that spell it, with at most one plus sign
      in front. */
  lemma ParseExactly(s: string, r: Radix, n: U64)
    ensures ParseUnsigned(s, r) == Some(n) <==> Spells(s, r, n) || (s != [] && s[0] == '+' && Spells(s[1..], r, n))
  {
    SpellsExactly(s, r, n);
    if s != [] {
      SpellsExactly(s[1..], r, n);
      if AllDigits(s, r) { PlusIsNoDigit(s, r); }
    }
    hide Spells;
  }

  lemma PlusIsNoDigit(s: string, r: Radix)
    requires s != [] && AllDigits(s, r)
    ensures s[0] != '+'
  {
    assert DigitValue(s[0], r).Some?;
  }

  lemma ParsePad20(n: U64)
    ensures ParseUnsigned(Pad20(n), 10) == Some(n)
  {
    FitsWidths();
    FixedValue(n, 20, 10);
    PlusIsNoDigit(Pad20(n), 10);
  }

  lemma ParseHex16(n: U64)
    ensures ParseUnsigned(Hex16(n), 16) == Some(n)
  {
    FitsWidths();
    FixedValue(n, 16, 16);
    PlusIsNoDigit(Hex16(n), 16);
  }

  lemma ParseDigits(n: U64)
    ensures ParseUnsigned(Digits(n, 10), 10) == Some(n)
  {
    DigitsValue(n, 10);
    PlusIsNoDigit(Digits(n, 10), 10);
  }

  /** Numerals contain none of the separators used by keys and records. */
  lemma DigitsAvoid(s: string, r: Radix, c: char)
    requires AllDigits(s, r) && DigitValue(c, r).None?
    ensures c !in s
  {
  }

  lemma NumeralsAvoid(n: U64, c: char)
    requires DigitValue(c, 16).None?
    ensures c !in Pad20(n) && c !in Digits(n, 10) && c !in Hex16(n)
  {
    FitsWidths();
    FixedValue(n, 20, 10);
    FixedValue(n, 16, 16);
    DigitsValue(n, 10);
    DigitsAvoid(Pad20(n), 10, c);
    DigitsAvoid(Digits(n, 10), 10, c);
    DigitsAvoid(Hex16(n), 16, c);
  }
}
