/** Splitting a vector into fixed-size chunks. */
module Chunking {
  import opened Basics

  /** `GRAPHBLAS_CSC_CHUNK_U64S`. */
  const CHUNK: nat := 65536

  /** `slice::chunks`. */
  function Chunks(v: seq<U64>): (r: seq<seq<U64>>) {
    if v == [] then []
    else if |v| <= CHUNK then [v]
    else [v[..CHUNK]] + Chunks(v[CHUNK..])
  }

  function Flat(chunks: seq<seq<U64>>): seq<U64> {
    if chunks == [] then [] else Flat(chunks[..|chunks| - 1]) + chunks[|chunks| - 1]
  }

  /** `expected_chunk_count`. */
  function ChunkCount(len: nat): nat {
    if len == 0 then 0 else (len + CHUNK - 1) / CHUNK
  }

  lemma {:induction false} FlatCons(head: seq<U64>, chunks: seq<seq<U64>>)
    ensures Flat([head] + chunks) == head + Flat(chunks)
  {
    var all := [head] + chunks;
    if chunks == [] {
      assert all[..0] == [] && Flat(all[..0]) == [];
    } else {
      var front, last := chunks[..|chunks| - 1], chunks[|chunks| - 1];
      FlatCons(head, front);
      assert all[..|all| - 1] == [head] + front && all[|all| - 1] == last;
      assert (head + Flat(front)) + last == head + (Flat(front) + last);
    }
  }

  /** Chunks concatenate back to the vector, and there are as many as the
      manifest check expects. */
  lemma {:induction false} ChunksFaithful(v: seq<U64>)
    ensures Flat(Chunks(v)) == v
    ensures |Chunks(v)| == ChunkCount(|v|)
    ensures forall c :: c in Chunks(v) ==> 0 < |c| <= CHUNK
  {
    if |v| > CHUNK {
      ChunksFaithful(v[CHUNK..]);
      FlatCons(v[..CHUNK], Chunks(v[CHUNK..]));
      assert v == v[..CHUNK] + v[CHUNK..];
    } else if v != [] {
      FlatCons(v, []);
    }
  }

  /** What a writer has emitted when it cuts a chunk every time its buffer
      fills: the full chunks so far, then whatever the buffer holds. */
  lemma {:induction false} StreamedChunks(full: seq<seq<U64>>, buffer: seq<U64>)
    requires forall c :: c in full ==> |c| == CHUNK
    requires |buffer| < CHUNK
    ensures Chunks(Flat(full) + buffer) == if buffer == [] then full else full + [buffer]
  {
    hide Flat;
    if full == [] {
      FlatNone();
      assert [] + buffer == buffer;
    } else {
      hide Chunks;
      var head, rest := full[0], full[1..];
      assert full == [head] + rest;
      StreamedChunks(rest, buffer);
      FlatCons(head, rest);
      assert (head + Flat(rest)) + buffer == head + (Flat(rest) + buffer);
      ChunksCons(head, Flat(rest) + buffer);
    }
  }

  lemma FlatNone()
    ensures Flat([]) == []
  {
  }

  lemma ChunksCons(head: seq<U64>, tail: seq<U64>)
    requires |head| == CHUNK
    ensures Chunks(head + tail) == [head] + Chunks(tail)
  {
    var v := head + tail;
    assert v[..CHUNK] == head && v[CHUNK..] == tail;
    if tail == [] {
      assert v == head;
    }
  }
}

/** The FNV-1a fold the artifacts carry as a checksum. */
module Checksum {
  import opened Basics
  import opened Binary
  import Numerals
  import opened CscImage

  const SEED: U64 := 0xcbf2_9ce4_8422_2325
  const PRIME: int := 0x0000_0100_0000_01b3

  /** Exclusive or of the low `w` bits. */
  function Xor(a: nat, b: nat, w: nat): nat {
    if w == 0 then 0 else (a + b) % 2 + 2 * Xor(a / 2, b / 2, w - 1)
  }

  lemma {:induction false} XorBound(a: nat, b: nat, w: nat)
    ensures Xor(a, b, w) < Numerals.Pow(2, w)
  {
    if w > 0 { XorBound(a / 2, b / 2, w - 1); }
  }

  lemma ByteBound(a: nat, b: nat)
    ensures Xor(a, b, 8) < 256
  {
    XorBound(a, b, 8);
    assert Numerals.Pow(2, 4) == 16 && Numerals.Pow(2, 8) == 16 * Numerals.Pow(2, 4);
  }

  /** `hash ^= byte`: only the low byte changes. */
  function XorByte(h: U64, b: Byte): U64 {
    ByteBound(h % 256, b);
    h - h % 256 + Xor(h % 256, b, 8)
  }

  /** `wrapping_mul`. */
  function TimesPrime(h: U64): U64 { h * PRIME % 0x1_0000_0000_0000_0000 }

  function FoldBytes(h: U64, b: Bytes): U64 {
    if b == [] then h else TimesPrime(XorByte(FoldBytes(h, b[..|b| - 1]), b[|b| - 1]))
  }

  /** `checksum_u64`. */
  function FoldU64(h: U64, n: U64): U64 { FoldBytes(h, Le(n, 8)) }

  function Fold(h: U64, values: seq<U64>): U64 {
    if values == [] then h else FoldU64(Fold(h, values[..|values| - 1]), values[|values| - 1])
  }

  lemma {:induction false} FoldConcat(h: U64, a: seq<U64>, b: seq<U64>)
    ensures Fold(h, a + b) == Fold(Fold(h, a), b)
  {
    hide FoldU64;
    if b == [] {
      assert a + b == a;
    } else {
      FoldConcat(h, a, b[..|b| - 1]);
      assert (a + b)[..|a + b| - 1] == a + b[..|b| - 1];
    }
  }

  // One wrong value never goes unnoticed.

  /** The multiplier is odd, so it has an inverse. */
  const INVERSE: int := 0xce96_5057_aff6_957b

  lemma SameProduct(x: U64, y: U64)
    requires TimesPrime(x) == TimesPrime(y)
    ensures x == y
  {
    TimesUndone(x);
    TimesUndone(y);
  }

  lemma TimesUndone(x: U64)
    ensures TimesPrime(x) * INVERSE % 0x1_0000_0000_0000_0000 == x
  {
    var m := 0x1_0000_0000_0000_0000;
    var q, r := x * PRIME / m, TimesPrime(x);
    assert PRIME * INVERSE == 0xce_9650_590f * m + 1;
    assert x * PRIME == q * m + r;
    assert r * INVERSE == m * (x * 0xce_9650_590f - q * INVERSE) + x;
    WholeMultiple(x * 0xce_9650_590f - q * INVERSE, x);
  }

  lemma WholeMultiple(k: int, x: U64)
    ensures (0x1_0000_0000_0000_0000 * k + x) % 0x1_0000_0000_0000_0000 == x
  {
  }

  lemma ParityOfSum(a: nat, x: nat)
    ensures (a + x) % 2 == 0 <==> a % 2 == x % 2
  {
    assert a + x == 2 * (a / 2 + x / 2) + (a % 2 + x % 2);
  }

  /** The lowest bits are determined as the others are. */
  lemma XorHalves(a: nat, x: nat, b: nat, y: nat, w: nat)
    requires w > 0 && Xor(a, x, w) == Xor(b, y, w)
    ensures Xor(a / 2, x / 2, w - 1) == Xor(b / 2, y / 2, w - 1)
    ensures a % 2 == b % 2 <==> x % 2 == y % 2
  {
    var p, q := Xor(a / 2, x / 2, w - 1), Xor(b / 2, y / 2, w - 1);
    var u, v := (a + x) % 2, (b + y) % 2;
    assert u + 2 * p == v + 2 * q;
    hide Xor;
    ParityOfSum(a, x);
    ParityOfSum(b, y);
  }

  /** Either operand of an exclusive or is determined by the other and the result. */
  lemma {:induction false} XorDetermines(a: nat, x: nat, b: nat, y: nat, w: nat)
    requires a < Numerals.Pow(2, w) && b < Numerals.Pow(2, w) && x < Numerals.Pow(2, w) && y < Numerals.Pow(2, w)
    requires Xor(a, x, w) == Xor(b, y, w)
    ensures a == b <==> x == y
  {
    hide Xor;
    if w > 0 {
      assert Numerals.Pow(2, w) == 2 * Numerals.Pow(2, w - 1);
      XorHalves(a, x, b, y, w);
      XorDetermines(a / 2, x / 2, b / 2, y / 2, w - 1);
    }
  }

  lemma SameXor(h: U64, x: Byte, g: U64, y: Byte)
    requires XorByte(h, x) == XorByte(g, y)
    ensures h == g <==> x == y
  {
    ByteBound(h % 256, x);
    ByteBound(g % 256, y);
    assert Numerals.Pow(2, 4) == 16 && Numerals.Pow(2, 8) == 16 * Numerals.Pow(2, 4);
    hide Xor;
    SameParts(h / 256, Xor(h % 256, x, 8), g / 256, Xor(g % 256, y, 8));
    XorDetermines(h % 256, x, g % 256, y, 8);
  }

  lemma SameParts(p: nat, u: nat, q: nat, v: nat)
    requires 256 * p + u == 256 * q + v && u < 256 && v < 256
    ensures p == q && u == v
  {
  }

  lemma {:induction false} SameBytesFold(h: U64, g: U64, b: Bytes)
    requires FoldBytes(h, b) == FoldBytes(g, b)
    ensures h == g
  {
    hide TimesPrime, XorByte;
    if b != [] {
      var front, last := b[..|b| - 1], b[|b| - 1];
      SameProduct(XorByte(FoldBytes(h, front), last), XorByte(FoldBytes(g, front), last));
      SameXor(FoldBytes(h, front), last, FoldBytes(g, front), last);
      SameBytesFold(h, g, front);
    }
  }

  lemma SameFoldU64(h: U64, g: U64, n: U64)
    requires FoldU64(h, n) == FoldU64(g, n)
    ensures h == g
  {
    SameBytesFold(h, g, Le(n, 8));
  }

  /** Bytes that differ in exactly one place. */
  ghost predicate OneByteOff(a: Bytes, b: Bytes, i: nat) {
    |a| == |b| && i < |a| && a[i] != b[i] && forall j :: 0 <= j < |a| && j != i ==> a[j] == b[j]
  }

  lemma {:induction false} OneByteNoticed(h: U64, a: Bytes, b: Bytes, i: nat)
    requires OneByteOff(a, b, i)
    ensures FoldBytes(h, a) != FoldBytes(h, b)
    decreases |a|
  {
    hide TimesPrime, XorByte;
    var n := |a| - 1;
    var x, y := FoldBytes(h, a[..n]), FoldBytes(h, b[..n]);
    if i < n { OneByteNoticed(h, a[..n], b[..n], i); } else { assert a[..n] == b[..n]; }
    if FoldBytes(h, a) == FoldBytes(h, b) {
      SameProduct(XorByte(x, a[n]), XorByte(y, b[n]));
      SameXor(x, a[n], y, b[n]);
    }
  }

  /** Values that agree but for one byte of one of them. */
  ghost predicate OneValueOff(a: seq<U64>, b: seq<U64>, i: nat, at: nat) {
    && |a| == |b| && i < |a| && OneByteOff(Le(a[i], 8), Le(b[i], 8), at)
    && forall j :: 0 <= j < |a| && j != i ==> a[j] == b[j]
  }

  /** They never have the same checksum. */
  lemma {:induction false} OneValueNoticed(h: U64, a: seq<U64>, b: seq<U64>, i: nat, at: nat)
    requires OneValueOff(a, b, i, at)
    ensures Fold(h, a) != Fold(h, b)
    decreases |a|
  {
    hide FoldBytes, Le, OneByteOff;
    var n := |a| - 1;
    if i < n {
      OneValueNoticed(h, a[..n], b[..n], i, at);
      if Fold(h, a) == Fold(h, b) { SameFoldU64(Fold(h, a[..n]), Fold(h, b[..n]), a[n]); }
    } else {
      assert a[..n] == b[..n];
      OneByteNoticed(Fold(h, a[..n]), Le(a[n], 8), Le(b[n], 8), at);
    }
  }

  /** The three sections, each behind its tag. */
  function Sections(c: Csc): seq<U64> {
    [1] + c.vertices + [2] + c.pointers + [3] + c.indices
  }

  /** `graphblas_csc_checksum`. */
  function CscChecksum(c: Csc): U64 { Fold(SEED, Sections(c)) }

  method FoldInto(h: U64, values: seq<U64>) returns (r: U64)
    ensures r == Fold(h, values)
  {
    r := h;
    for i := 0 to |values|
      invariant r == Fold(h, values[..i])
    {
      assert values[..i + 1][..i] == values[..i];
      r := FoldU64(r, values[i]);
    }
    assert values[..|values|] == values;
  }
}

/** The stored artifact: chunk records, the manifest, and the loader. */
module CscArtifact {
  import opened Basics
  import opened Splitting
  import opened Numerals
  import opened Binary
  import opened WriteBatch
  import opened CscImage
  import opened Chunking
  import opened Checksum
  import Keys

  datatype ArtifactId = ArtifactId(cell: string, edgeType: string, epoch: U64)

  predicate ValidId(at: ArtifactId) {
    Keys.ValidComponent(at.cell) && Keys.ValidComponent(at.edgeType)
  }

  datatype Field = Vertices | Pointers | Indices

  function FieldName(f: Field): (s: string)
    ensures IsAscii(s) && |s| < 9
  {
    match f
    case Vertices => "vertices"
    case Pointers => "pointers"
    case Indices => "indices"
  }

  function Values(c: Csc, f: Field): seq<U64> {
    match f
    case Vertices => c.vertices
    case Pointers => c.pointers
    case Indices => c.indices
  }

  // Keys.

  function ChunkParts(at: ArtifactId, f: Field, id: nat): (r: seq<string>)
    ensures |r| == 8
  {
    ["cell", at.cell, "artifact", "graphblas_csc_chunk", at.edgeType, Pad20(at.epoch), FieldName(f), Fixed(id, 20, 10)]
  }

  function ChunkKey(at: ArtifactId, f: Field, id: nat): Key { Join(ChunkParts(at, f, id), '/') }

  function CscKeyParts(at: ArtifactId): (r: seq<string>)
    ensures |r| == 6
  {
    ["cell", at.cell, "artifact", "graphblas_csc", at.edgeType, Pad20(at.epoch)]
  }

  function CscKey(at: ArtifactId): Key { Join(CscKeyParts(at), '/') }

  lemma IdPartsFree(at: ArtifactId)
    requires ValidId(at)
    ensures '/' !in at.cell && '/' !in at.edgeType && '/' !in Pad20(at.epoch)
  {
    Keys.ComponentFree(at.cell, '/');
    Keys.ComponentFree(at.edgeType, '/');
    NumeralsAvoid(at.epoch, '/');
  }

  lemma ChunkPartsFree(at: ArtifactId, f: Field, id: nat)
    requires ValidId(at) && id <= U64_MAX
    ensures Free(ChunkParts(at, f, id), '/')
  {
    IdPartsFree(at);
    NumeralsAvoid(id, '/');
    forall i | 0 <= i < 8 ensures '/' !in ChunkParts(at, f, id)[i] { }
  }

  lemma CscKeyPartsFree(at: ArtifactId)
    requires ValidId(at)
    ensures Free(CscKeyParts(at), '/')
  {
    IdPartsFree(at);
    forall i | 0 <= i < 6 ensures '/' !in CscKeyParts(at)[i] { }
  }

  /** Chunk keys identify their field and number, and differ from the manifest
      key. */
  lemma ArtifactKeysDistinct(at: ArtifactId, f: Field, i: nat, g: Field, j: nat)
    requires ValidId(at) && i <= U64_MAX && j <= U64_MAX
    ensures ChunkKey(at, f, i) == ChunkKey(at, g, j) ==> f == g && i == j
    ensures ChunkKey(at, f, i) != CscKey(at)
  {
    hide *;
    ChunkPartsFree(at, f, i);
    ChunkPartsFree(at, g, j);
    CscKeyPartsFree(at);
    assert ChunkKey(at, f, i) == Join(ChunkParts(at, f, i), '/') && CscKey(at) == Join(CscKeyParts(at), '/')
        && ChunkKey(at, g, j) == Join(ChunkParts(at, g, j), '/') by { KeyJoins(at, f, i); KeyJoins(at, g, j); }
    if ChunkKey(at, f, i) == ChunkKey(at, g, j) {
      JoinInjective(ChunkParts(at, f, i), ChunkParts(at, g, j), '/');
      SameChunkParts(at, f, i, g, j);
    }
    SplitJoin(ChunkParts(at, f, i), '/');
    SplitJoin(CscKeyParts(at), '/');
  }

  lemma KeyJoins(at: ArtifactId, f: Field, i: nat)
    ensures ChunkKey(at, f, i) == Join(ChunkParts(at, f, i), '/') && CscKey(at) == Join(CscKeyParts(at), '/')
  {
  }

  lemma SameChunkParts(at: ArtifactId, f: Field, i: nat, g: Field, j: nat)
    requires i <= U64_MAX && j <= U64_MAX && ChunkParts(at, f, i) == ChunkParts(at, g, j)
    ensures f == g && i == j
  {
    var a, b := ChunkParts(at, f, i), ChunkParts(at, g, j);
    assert a[6] == b[6] && a[7] == b[7];
    assert FieldName(f)[0] == FieldName(g)[0];
    FitsWidths();
    FixedOrder(i, j, 20, 10);
  }

  // Chunk records.

  const CHUNK_MAGIC: string := "graphblas_csc_chunk1\n"
  const LEGACY_MAGIC: string := "graphblas_csc1\n"

  function EncodeChunk(f: Field, id: nat, values: seq<U64>): Bytes {
    AsciiBytes(CHUNK_MAGIC) + WriteBytes(AsciiBytes(FieldName(f))) + Le(id, 8) + WriteU64s(values)
  }

  /** `decode_graphblas_csc_chunk`. */
  function DecodeChunk(value: Bytes, f: Field, id: nat): Result<seq<U64>> {
    var magic := AsciiBytes(CHUNK_MAGIC);
    if magic <= value then DecodeChunkFields(value[|magic|..], f, id) else Err(CorruptValue)
  }

  /** Behind its magic. */
  function DecodeChunkFields(fields: Bytes, f: Field, id: nat): Result<seq<U64>> {
    var (field, afterField) :- ReadBytes(fields);
    var (chunkId, afterId) :- ReadU64(afterField);
    if field != AsciiBytes(FieldName(f)) || chunkId != id then Err(CorruptValue)
    else
      var (values, rest) :- ReadU64s(afterId);
      if rest != [] then Err(CorruptValue) else Ok(values)
  }

  function ChunkFields(f: Field, id: nat, values: seq<U64>): Bytes {
    WriteBytes(AsciiBytes(FieldName(f))) + (Le(id, 8) + (WriteU64s(values) + []))
  }

  /** Exactly the chunk's own layout is accepted behind the magic, under its field
      and number. */
  lemma ChunkExactly(fields: Bytes, f: Field, id: nat, values: seq<U64>)
    requires id <= U64_MAX
    ensures DecodeChunkFields(fields, f, id) == Ok(values) <==>
              |values| <= U64_MAX && fields == ChunkFields(f, id, values)
  {
    hide ReadBytes, ReadU64, ReadU64s, WriteBytes, WriteU64s, AsciiBytes, Le;
    var name := AsciiBytes(FieldName(f));
    var last := WriteU64s(values) + [];
    var more := Le(id, 8) + last;
    if |values| <= U64_MAX && fields == ChunkFields(f, id, values) {
      ReadBytesWrote(name, more);
      ReadU64Wrote(id, last);
      ReadU64sWrote(values, []);
    }
    if DecodeChunkFields(fields, f, id) == Ok(values) {
      var x := ReadBytes(fields).value;
      var y := ReadU64(x.1).value;
      var z := ReadU64s(y.1).value;
      ReadBytesExactly(fields, x.0, x.1);
      ReadU64Exactly(x.1, y.0, y.1);
      ReadU64sExactly(y.1, z.0, z.1);
      assert z == (values, []) && y.1 == last && x.1 == more;
    }
  }

  lemma ChunkRoundTrip(f: Field, id: nat, values: seq<U64>)
    requires id <= U64_MAX && |values| <= U64_MAX
    ensures DecodeChunk(EncodeChunk(f, id, values), f, id) == Ok(values)
  {
    hide ReadBytes;
    hide ReadU64;
    hide ReadU64s;
    hide WriteBytes;
    hide WriteU64s;
    hide AsciiBytes;
    hide Le;
    var magic, name := AsciiBytes(CHUNK_MAGIC), AsciiBytes(FieldName(f));
    var tail := WriteU64s(values);
    var value := EncodeChunk(f, id, values);
    assert value == magic + (WriteBytes(name) + (Le(id, 8) + tail));
    assert value[|magic|..] == WriteBytes(name) + (Le(id, 8) + tail);
    ReadBytesWrote(name, Le(id, 8) + tail);
    ReadU64Wrote(id, tail);
    ReadU64sWrote(values, []);
    assert tail + [] == tail;
  }

  /** The decoder with the reader's cursor, as the original runs it. */
  method DecodeChunkAt(value: Bytes, f: Field, id: nat) returns (r: Result<seq<U64>>)
    ensures r == DecodeChunk(value, f, id)
  {
    var magic := AsciiBytes(CHUNK_MAGIC);
    if !(magic <= value) { return Err(CorruptValue); }
    var reader := new Reader(value, |magic|);
    var field := reader.TakeBytes();
    if field.Err? { return Err(CorruptValue); }
    var chunkId := reader.TakeU64();
    if chunkId.Err? { return Err(CorruptValue); }
    if field.value != AsciiBytes(FieldName(f)) || chunkId.value != id { return Err(CorruptValue); }
    var values := reader.TakeU64s();
    if values.Err? { return Err(CorruptValue); }
    if reader.cursor != |value| { return Err(CorruptValue); }
    r := values;
  }

  /** `decode_graphblas_csc_chunk_u32`: the same values, refused as soon as one
      does not fit 32 bits. */
  method DecodeChunkU32At(value: Bytes, f: Field, id: nat) returns (r: Result<seq<U32>>)
    ensures r.Ok? <==> DecodeChunk(value, f, id).Ok?
                       && forall v :: v in DecodeChunk(value, f, id).value ==> v <= U32_MAX
    ensures r.Ok? ==> r.value == DecodeChunk(value, f, id).value
  {
    hide DecodeChunk;
    var wide := DecodeChunkAt(value, f, id);
    if wide.Err? { return Err(CorruptValue); }
    var narrow: seq<U32> := [];
    for i := 0 to |wide.value|
      invariant narrow == wide.value[..i]
    {
      if wide.value[i] > U32_MAX {
        assert wide.value[i] in wide.value;
        return Err(CorruptValue);
      }
      narrow := narrow + [wide.value[i]];
    }
    assert forall v :: v in narrow ==> v <= U32_MAX;
    r := Ok(narrow);
  }

  function ChunkRecord(at: ArtifactId, f: Field, id: nat, values: seq<U64>): WriteOp {
    Put(ChunkKey(at, f, id), EncodeChunk(f, id, values))
  }

  function ChunkRecords(at: ArtifactId, f: Field, chunks: seq<seq<U64>>): (r: seq<WriteOp>)
    ensures |r| == |chunks|
  {
    seq(|chunks|, i requires 0 <= i < |chunks| => ChunkRecord(at, f, i, chunks[i]))
  }

  lemma ChunkRecordsSnoc(at: ArtifactId, f: Field, chunks: seq<seq<U64>>, last: seq<U64>)
    ensures ChunkRecords(at, f, chunks + [last])
         == ChunkRecords(at, f, chunks) + [ChunkRecord(at, f, |chunks|, last)]
  {
    hide ChunkRecord;
    var a, b := ChunkRecords(at, f, chunks + [last]),
        ChunkRecords(at, f, chunks) + [ChunkRecord(at, f, |chunks|, last)];
    forall i | 0 <= i < |a| ensures a[i] == b[i] { }
  }

  function FieldRecords(at: ArtifactId, c: Csc, f: Field): seq<WriteOp> {
    ChunkRecords(at, f, Chunks(Values(c, f)))
  }

  /** The records of one artifact, in write order. */
  function CscRecords(at: ArtifactId, c: Csc): seq<WriteOp> {
    FieldRecords(at, c, Vertices) + FieldRecords(at, c, Pointers) + FieldRecords(at, c, Indices)
  }

  // The manifest.

  const MANIFEST_MAGIC: string := "graph-graphblas-csc-manifest-v1"

  datatype Manifest = Manifest(id: ArtifactId, chunkSize: U64, lens: seq<U64>, chunks: seq<U64>, checksum: U64)

  predicate FitsMachine(c: Csc) {
    |c.vertices| < U64_MAX && |c.pointers| <= U64_MAX && |c.indices| <= U64_MAX
  }

  function ManifestOf(at: ArtifactId, c: Csc): Manifest
    requires FitsMachine(c)
  {
    Manifest(at, CHUNK,
             [|c.vertices|, |c.pointers|, |c.indices|],
             [ChunkCount(|c.vertices|), ChunkCount(|c.pointers|), ChunkCount(|c.indices|)],
             CscChecksum(c))
  }

  function Numbers(m: Manifest): seq<U64> {
    [m.id.epoch, m.chunkSize] + m.lens + m.chunks + [m.checksum]
  }

  function ManifestFields(m: Manifest): (r: seq<string>)
    ensures |r| == 3 + |Numbers(m)|
  {
    [MANIFEST_MAGIC, m.id.cell, m.id.edgeType] + Keys.Decimals(Numbers(m))
  }

  function EncodeManifestText(m: Manifest): string { RecordLine(ManifestFields(m)) }

  /** `decode_graphblas_csc_manifest`. */
  function DecodeManifestText(text: string): Result<Manifest> {
    var p := RecordFields(text);
    if |p| != 12 || p[0] != MANIFEST_MAGIC then Err(CorruptValue)
    else
      var n :- Keys.ParseAllU64(p[3..]);
      if |n| != 9 then Err(CorruptValue)
      else
        var m := Manifest(ArtifactId(p[1], p[2], n[0]), n[1], n[2..5], n[5..8], n[8]);
        if m.chunkSize != CHUNK then Err(CorruptValue)
        else if exists i :: 0 <= i < 3 && ChunkCount(m.lens[i]) != m.chunks[i] then Err(CorruptValue)
        else Ok(m)
  }

  lemma ManifestFieldsFree(m: Manifest, c: char)
    requires ValidId(m.id) && (c == '\t' || c == '\n')
    ensures Free(ManifestFields(m), c)
  {
    hide Digits;
    hide Numbers;
    Keys.ComponentFree(m.id.cell, c);
    Keys.ComponentFree(m.id.edgeType, c);
    forall p | p in Keys.Decimals(Numbers(m)) ensures c !in p {
      var i :| 0 <= i < |Numbers(m)| && Keys.Decimals(Numbers(m))[i] == p;
      NumeralsAvoid(Numbers(m)[i], c);
    }
  }

  /** The manifest decoder accepts a written manifest exactly when its chunk
      size and counts are the expected ones, and then returns it unchanged. */
  lemma ManifestRoundTrip(m: Manifest)
    requires ValidId(m.id) && |m.lens| == 3 && |m.chunks| == 3
    ensures DecodeManifestText(EncodeManifestText(m))
         == if m.chunkSize == CHUNK && forall i :: 0 <= i < 3 ==> ChunkCount(m.lens[i]) == m.chunks[i]
            then Ok(m) else Err(CorruptValue)
  {
    hide RecordFields;
    hide RecordLine;
    hide Keys.ParseAllU64;
    hide ChunkCount;
    hide Keys.Decimals;
    ManifestFieldsFree(m, '\t');
    ManifestFieldsFree(m, '\n');
    var p, n := ManifestFields(m), Numbers(m);
    RecordRoundTrip(p);
    Keys.ParseDecimals(n);
    assert p[3..] == Keys.Decimals(n);
    assert n[2..5] == m.lens && n[5..8] == m.chunks && n[0] == m.id.epoch && n[1] == m.chunkSize && n[8] == m.checksum;
  }
}
