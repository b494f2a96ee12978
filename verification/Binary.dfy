/** Fixed-width integers as bytes, and the cursor that reads binary records. */
module Binary {
  import opened Basics
  import Numerals

  type Bytes = seq<Byte>

  function Le(n: nat, w: nat): (b: Bytes)
    ensures |b| == w
  {
    if w == 0 then [] else [n % 256] + Le(n / 256, w - 1)
  }

  function FromLe(b: Bytes): nat {
    if b == [] then 0 else b[0] + 256 * FromLe(b[1..])
  }

  function Be(n: nat, w: nat): (b: Bytes)
    ensures |b| == w
  {
    if w == 0 then [] else Be(n / 256, w - 1) + [n % 256]
  }

  function FromBe(b: Bytes): nat {
    if b == [] then 0 else 256 * FromBe(b[..|b| - 1]) + b[|b| - 1]
  }

  lemma Pow256Step(n: nat, w: nat)
    requires w > 0 && n < Numerals.Pow(256, w)
    ensures n / 256 < Numerals.Pow(256, w - 1)
  {
    assert Numerals.Pow(256, w) == 256 * Numerals.Pow(256, w - 1);
  }

  lemma {:induction false} FromLeInverse(n: nat, w: nat)
    requires n < Numerals.Pow(256, w)
    ensures FromLe(Le(n, w)) == n
  {
    if w > 0 {
      Pow256Step(n, w);
      FromLeInverse(n / 256, w - 1);
      assert Le(n, w)[1..] == Le(n / 256, w - 1);
    }
  }

  lemma {:induction false} FromBeInverse(n: nat, w: nat)
    requires n < Numerals.Pow(256, w)
    ensures FromBe(Be(n, w)) == n
  {
    if w > 0 {
      Pow256Step(n, w);
      FromBeInverse(n / 256, w - 1);
      assert Be(n, w)[..w - 1] == Be(n / 256, w - 1);
    }
  }

  lemma {:induction false} FromLeBound(b: Bytes)
    ensures FromLe(b) < Numerals.Pow(256, |b|)
  {
    if b != [] {
      FromLeBound(b[1..]);
      assert Numerals.Pow(256, |b|) == 256 * Numerals.Pow(256, |b| - 1);
    }
  }

  lemma {:induction false} FromBeBound(b: Bytes)
    ensures FromBe(b) < Numerals.Pow(256, |b|)
  {
    if b != [] {
      FromBeBound(b[..|b| - 1]);
      assert Numerals.Pow(256, |b|) == 256 * Numerals.Pow(256, |b| - 1);
    }
  }

  lemma Pow256Of8()
    ensures Numerals.Pow(256, 8) == U64_MAX + 1
  {
    assert Numerals.Pow(256, 4) == 0x1_0000_0000;
    assert Numerals.Pow(256, 8) == 0x1_0000_0000 * Numerals.Pow(256, 4);
  }

  /** `u64::from_le_bytes`. */
  function U64FromLe(b: Bytes): (n: U64)
    requires |b| == 8
  {
    FromLeBound(b);
    Pow256Of8();
    FromLe(b)
  }

  /** `u64::from_be_bytes`. */
  function U64FromBe(b: Bytes): (n: U64)
    requires |b| == 8
  {
    FromBeBound(b);
    Pow256Of8();
    FromBe(b)
  }

  lemma U64LeRoundTrip(n: U64)
    ensures U64FromLe(Le(n, 8)) == n
  {
    Pow256Of8();
    FromLeInverse(n, 8);
  }

  lemma U64BeRoundTrip(n: U64)
    ensures U64FromBe(Be(n, 8)) == n
  {
    Pow256Of8();
    FromBeInverse(n, 8);
  }

  // Arrays of integers.

  function LeAll(values: seq<U64>): (b: Bytes)
    ensures |b| == 8 * |values|
  {
    if values == [] then [] else Le(values[0], 8) + LeAll(values[1..])
  }

  /** `chunks_exact(8)` decoded one by one. */
  function AllFromLe(b: Bytes): (values: seq<U64>)
    requires |b| % 8 == 0
    ensures 8 * |values| == |b|
  {
    if b == [] then [] else [U64FromLe(b[..8])] + AllFromLe(b[8..])
  }

  lemma {:induction false} LeAllRoundTrip(values: seq<U64>)
    ensures AllFromLe(LeAll(values)) == values
  {
    if values != [] {
      var head, tail := Le(values[0], 8), LeAll(values[1..]);
      U64LeRoundTrip(values[0]);
      LeAllRoundTrip(values[1..]);
      assert (head + tail)[..8] == head && (head + tail)[8..] == tail;
    }
  }

  function BeAll(values: seq<U64>): (b: Bytes)
    ensures |b| == 8 * |values|
  {
    if values == [] then [] else Be(values[0], 8) + BeAll(values[1..])
  }

  function AllFromBe(b: Bytes): (values: seq<U64>)
    requires |b| % 8 == 0
    ensures 8 * |values| == |b|
  {
    if b == [] then [] else [U64FromBe(b[..8])] + AllFromBe(b[8..])
  }

  lemma {:induction false} BeAllRoundTrip(values: seq<U64>)
    ensures AllFromBe(BeAll(values)) == values
  {
    if values != [] {
      var head, tail := Be(values[0], 8), BeAll(values[1..]);
      U64BeRoundTrip(values[0]);
      BeAllRoundTrip(values[1..]);
      assert (head + tail)[..8] == head && (head + tail)[8..] == tail;
    }
  }

  // Texts as bytes. Every text this code stores is ASCII.

  predicate IsAscii(s: string) {
    forall i :: 0 <= i < |s| ==> (s[i] as int) < 128
  }

  function AsciiBytes(s: string): (b: Bytes)
    requires IsAscii(s)
    ensures |b| == |s|
  {
    seq(|s|, i requires 0 <= i < |s| => s[i] as int)
  }

  /** The text of an ASCII value, or nothing when a byte is out of range. */
  function TextValue(b: Bytes): Result<string> {
    if forall i :: 0 <= i < |b| ==> b[i] < 128
    then Ok(seq(|b|, i requires 0 <= i < |b| => b[i] as char))
    else Err(CorruptValue)
  }

  lemma AsciiRoundTrip(s: string)
    requires IsAscii(s)
    ensures TextValue(AsciiBytes(s)) == Ok(s)
  {
    var b := AsciiBytes(s);
    assert seq(|b|, i requires 0 <= i < |b| => b[i] as char) == s;
  }

  // Reading. A field is read off the front of what is left.

  function ReadU64(rest: Bytes): Result<(U64, Bytes)> {
    if |rest| < 8 then Err(CorruptValue) else Ok((U64FromLe(rest[..8]), rest[8..]))
  }

  function ReadBytes(rest: Bytes): Result<(Bytes, Bytes)> {
    var (len, body) :- ReadU64(rest);
    if |body| < len then Err(CorruptValue) else Ok((body[..len], body[len..]))
  }

  function ReadU64s(rest: Bytes): Result<(seq<U64>, Bytes)> {
    var (len, body) :- ReadU64(rest);
    if |body| < 8 * len then Err(CorruptValue) else Ok((AllFromLe(body[..8 * len]), body[8 * len..]))
  }

  function WriteBytes(b: Bytes): Bytes { Le(|b|, 8) + b }

  function WriteU64s(values: seq<U64>): Bytes { Le(|values|, 8) + LeAll(values) }

  lemma ReadU64Wrote(n: U64, rest: Bytes)
    ensures ReadU64(Le(n, 8) + rest) == Ok((n, rest))
  {
    var s := Le(n, 8) + rest;
    U64LeRoundTrip(n);
    assert s[..8] == Le(n, 8) && s[8..] == rest;
  }

  lemma ReadBytesWrote(b: Bytes, rest: Bytes)
    requires |b| <= U64_MAX
    ensures ReadBytes(WriteBytes(b) + rest) == Ok((b, rest))
  {
    assert WriteBytes(b) + rest == Le(|b|, 8) + (b + rest);
    ReadU64Wrote(|b|, b + rest);
    assert (b + rest)[..|b|] == b && (b + rest)[|b|..] == rest;
  }

  lemma ReadU64sWrote(values: seq<U64>, rest: Bytes)
    requires |values| <= U64_MAX
    ensures ReadU64s(WriteU64s(values) + rest) == Ok((values, rest))
  {
    var body := LeAll(values);
    assert WriteU64s(values) + rest == Le(|values|, 8) + (body + rest);
    ReadU64Wrote(|values|, body + rest);
    LeAllRoundTrip(values);
    assert (body + rest)[..|body|] == body && (body + rest)[|body|..] == rest;
  }

  // A field is read exactly when it was written that way.

  lemma {:induction false} LeUndone(b: Bytes)
    ensures Le(FromLe(b), |b|) == b
  {
    if b != [] {
      LeUndone(b[1..]);
      assert FromLe(b) % 256 == b[0] && FromLe(b) / 256 == FromLe(b[1..]);
    }
  }

  lemma {:induction false} LeAllUndone(b: Bytes)
    requires |b| % 8 == 0
    ensures LeAll(AllFromLe(b)) == b
  {
    if b != [] {
      LeUndone(b[..8]);
      LeAllUndone(b[8..]);
      assert AllFromLe(b)[1..] == AllFromLe(b[8..]);
    }
  }

  lemma ReadU64Exactly(s: Bytes, n: U64, rest: Bytes)
    ensures ReadU64(s) == Ok((n, rest)) <==> s == Le(n, 8) + rest
  {
    ReadU64Wrote(n, rest);
    if |s| >= 8 {
      LeUndone(s[..8]);
      assert s == s[..8] + s[8..];
    }
  }

  lemma ReadBytesExactly(s: Bytes, b: Bytes, rest: Bytes)
    ensures ReadBytes(s) == Ok((b, rest)) <==> |b| <= U64_MAX && s == WriteBytes(b) + rest
  {
    if |b| <= U64_MAX { ReadBytesWrote(b, rest); }
    if ReadBytes(s) == Ok((b, rest)) {
      var (len, body) := ReadU64(s).value;
      ReadU64Exactly(s, len, body);
      assert body == b + rest;
      assert Le(len, 8) + (b + rest) == WriteBytes(b) + rest;
    }
  }

  lemma ReadU64sUndone(s: Bytes, values: seq<U64>, rest: Bytes)
    requires ReadU64s(s) == Ok((values, rest))
    ensures |values| <= U64_MAX && s == WriteU64s(values) + rest
  {
    hide Le, LeAll, FromLe, U64FromLe, ReadU64, AllFromLe;
    var (len, body) := ReadU64(s).value;
    ReadU64Exactly(s, len, body);
    LeAllUndone(body[..8 * len]);
    assert body == LeAll(values) + rest;
    assert Le(len, 8) + (LeAll(values) + rest) == WriteU64s(values) + rest;
  }

  lemma ReadU64sExactly(s: Bytes, values: seq<U64>, rest: Bytes)
    ensures ReadU64s(s) == Ok((values, rest)) <==> |values| <= U64_MAX && s == WriteU64s(values) + rest
  {
    hide *;
    if |values| <= U64_MAX { ReadU64sWrote(values, rest); }
    if ReadU64s(s) == Ok((values, rest)) { ReadU64sUndone(s, values, rest); }
  }

  lemma TextExactly(b: Bytes, s: string)
    requires IsAscii(s)
    ensures TextValue(b) == Ok(s) <==> b == AsciiBytes(s)
  {
    AsciiRoundTrip(s);
    if TextValue(b) == Ok(s) { assert forall i :: 0 <= i < |b| ==> s[i] == b[i] as char; }
  }

  /** The `&mut cursor` of the decoders. */
  class Reader {
    const value: Bytes
    var cursor: nat

    ghost predicate Valid()
      reads this
    {
      cursor <= |value|
    }

    ghost function Rest(): Bytes
      requires Valid()
      reads this
    {
      value[cursor..]
    }

    constructor (value: Bytes, start: nat)
      requires start <= |value|
      ensures this.value == value && cursor == start && Valid()
    {
      this.value, cursor := value, start;
    }

    /** `take_binary`: advances on success, stays on a truncated field. */
    method Take(len: nat) returns (r: Result<Bytes>)
      requires Valid()
      modifies this`cursor
      ensures Valid()
      ensures |old(Rest())| < len ==> r.Err? && cursor == old(cursor)
      ensures |old(Rest())| >= len ==> r == Ok(old(Rest())[..len]) && Rest() == old(Rest())[len..]
    {
      var end := cursor + len;
      if end > |value| { return Err(CorruptValue); }
      assert value[cursor..end] == value[cursor..][..len];
      assert value[end..] == value[cursor..][len..];
      r := Ok(value[cursor..end]);
      cursor := end;
    }

    method TakeU64() returns (r: Result<U64>)
      requires Valid()
      modifies this`cursor
      ensures Valid()
      ensures r.Ok? <==> ReadU64(old(Rest())).Ok?
      ensures r.Ok? ==> ReadU64(old(Rest())) == Ok((r.value, Rest()))
    {
      var bytes := Take(8);
      if bytes.Err? { return Err(CorruptValue); }
      r := Ok(U64FromLe(bytes.value));
    }

    method TakeBytes() returns (r: Result<Bytes>)
      requires Valid()
      modifies this`cursor
      ensures Valid()
      ensures r.Ok? <==> ReadBytes(old(Rest())).Ok?
      ensures r.Ok? ==> ReadBytes(old(Rest())) == Ok((r.value, Rest()))
    {
      var len := TakeU64();
      if len.Err? { return Err(CorruptValue); }
      r := Take(len.value);
    }

    method TakeU64s() returns (r: Result<seq<U64>>)
      requires Valid()
      modifies this`cursor
      ensures Valid()
      ensures r.Ok? <==> ReadU64s(old(Rest())).Ok?
      ensures r.Ok? ==> ReadU64s(old(Rest())) == Ok((r.value, Rest()))
    {
      var len := TakeU64();
      if len.Err? { return Err(CorruptValue); }
      // A length whose byte count overflows is also longer than any value.
      var count: nat := len.value;
      var bytes := Take(8 * count);
      if bytes.Err? { return Err(CorruptValue); }
      r := Ok(AllFromLe(bytes.value));
    }
  }
}
