/** Reading an artifact back from the store. */
module ArtifactLoad {
  import opened Basics
  import opened Ascending
  import opened Splitting
  import opened Numerals
  import opened Binary
  import opened WriteBatch
  import opened Rows
  import opened CscImage
  import opened Chunking
  import opened Checksum
  import opened CscArtifact
  import Keys

  // The manifest as bytes.

  lemma AsciiConcat(a: string, b: string)
    requires IsAscii(a) && IsAscii(b)
    ensures IsAscii(a + b)
  {
  }

  lemma {:induction false} JoinAscii(parts: seq<string>, c: char)
    requires parts != [] && (c as int) < 128 && forall p :: p in parts ==> IsAscii(p)
    ensures IsAscii(Join(parts, c))
  {
    hide IsAscii;
    assert parts[0] in parts;
    if |parts| > 1 {
      JoinAscii(parts[1..], c);
      OneAscii(c);
      AsciiConcat(parts[0], [c]);
      AsciiConcat(parts[0] + [c], Join(parts[1..], c));
    }
  }

  lemma OneAscii(c: char)
    requires (c as int) < 128
    ensures IsAscii([c])
  {
  }

  lemma NumeralAscii(n: U64)
    ensures IsAscii(Digits(n, 10))
  {
    DigitsValue(n, 10);
    var s := Digits(n, 10);
    forall i | 0 <= i < |s| ensures (s[i] as int) < 128 { assert DigitValue(s[i], 10).Some?; }
  }

  lemma ComponentAscii(s: string)
    requires Keys.ValidComponent(s)
    ensures IsAscii(s)
  {
    assert forall k :: 0 <= k < |s| ==> s[k] in s;
  }

  lemma ManifestAscii(m: Manifest)
    requires ValidId(m.id)
    ensures IsAscii(EncodeManifestText(m))
  {
    hide Digits;
    hide Numbers;
    hide Join;
    assert IsAscii(MANIFEST_MAGIC);
    ComponentAscii(m.id.cell);
    ComponentAscii(m.id.edgeType);
    var p := ManifestFields(m);
    forall f | f in p ensures IsAscii(f) {
      hide IsAscii;
      var i :| 0 <= i < |p| && p[i] == f;
      if i >= 3 {
        NumeralAscii(Numbers(m)[i - 3]);
        assert p[i] == Keys.Decimals(Numbers(m))[i - 3];
      }
    }
    JoinAscii(p, '\t');
    OneAscii('\n');
    AsciiConcat(Join(p, '\t'), "\n");
  }

  function EncodeManifest(m: Manifest): Bytes
    requires ValidId(m.id)
  {
    ManifestAscii(m);
    AsciiBytes(EncodeManifestText(m))
  }

  function DecodeManifest(value: Bytes): Result<Manifest> {
    var text :- TextValue(value);
    DecodeManifestText(text)
  }

  lemma ManifestBytesRoundTrip(at: ArtifactId, c: Csc)
    requires ValidId(at) && FitsMachine(c)
    ensures DecodeManifest(EncodeManifest(ManifestOf(at, c))) == Ok(ManifestOf(at, c))
  {
    hide AsciiBytes;
    hide TextValue;
    hide EncodeManifestText;
    hide DecodeManifestText;
    hide CscChecksum;
    var m := ManifestOf(at, c);
    ManifestAscii(m);
    AsciiRoundTrip(EncodeManifestText(m));
    ManifestRoundTrip(m);
  }

  // Chunks.

  /** The values of the first `n` chunks of a field. */
  function Loaded(store: Store, at: ArtifactId, f: Field, n: nat): Result<seq<U64>> {
    if n == 0 then Ok([])
    else
      var front :- Loaded(store, at, f, n - 1);
      var key := ChunkKey(at, f, n - 1);
      if key !in store then Err(CorruptValue)
      else
        var values :- DecodeChunk(store[key], f, n - 1);
        Ok(front + values)
  }

  function LoadField(store: Store, at: ArtifactId, f: Field, count: nat, len: nat): Result<seq<U64>> {
    var values :- Loaded(store, at, f, count);
    if |values| != len then Err(CorruptValue) else Ok(values)
  }

  lemma {:induction false} LoadedFails(store: Store, at: ArtifactId, f: Field, n: nat, m: nat)
    requires n <= m && Loaded(store, at, f, n).Err?
    ensures Loaded(store, at, f, m) == Err(Loaded(store, at, f, n).error)
  {
    hide DecodeChunk;
    hide ChunkKey;
    if n < m { LoadedFails(store, at, f, n, m - 1); }
  }

  lemma {:induction false} LoadedErrors(store: Store, at: ArtifactId, f: Field, n: nat)
    ensures Loaded(store, at, f, n).Err? ==> Loaded(store, at, f, n).error == CorruptValue
  {
    hide ChunkKey;
    if n > 0 { LoadedErrors(store, at, f, n - 1); }
  }

  /** `load_graphblas_csc_chunks`. */
  method LoadChunks(store: Store, at: ArtifactId, f: Field, count: nat, len: nat) returns (r: Result<seq<U64>>)
    ensures r == LoadField(store, at, f, count, len)
  {
    hide DecodeChunk;
    hide ChunkKey;
    var values: seq<U64> := [];
    for id := 0 to count
      invariant Loaded(store, at, f, id) == Ok(values)
    {
      var key := ChunkKey(at, f, id);
      if key !in store {
        LoadedFails(store, at, f, id + 1, count);
        return Err(CorruptValue);
      }
      var chunk := DecodeChunkAt(store[key], f, id);
      if chunk.Err? {
        LoadedErrors(store, at, f, id + 1);
        LoadedFails(store, at, f, id + 1, count);
        return Err(CorruptValue);
      }
      values := values + chunk.value;
    }
    if |values| != len { return Err(CorruptValue); }
    r := Ok(values);
  }

  /** `load_graphblas_csc_chunks_u32` agrees with the 64-bit loader whenever the
      values fit, and fails otherwise. */
  method LoadChunksU32(store: Store, at: ArtifactId, f: Field, count: nat, len: nat) returns (r: Result<seq<U32>>)
    ensures r.Ok? <==> (
              && LoadField(store, at, f, count, len).Ok?
              && forall v :: v in LoadField(store, at, f, count, len).value ==> v <= U32_MAX)
    ensures r.Ok? ==> r.value == LoadField(store, at, f, count, len).value
  {
    hide DecodeChunk;
    hide ChunkKey;
    var values: seq<U32> := [];
    for id := 0 to count
      invariant Loaded(store, at, f, id) == Ok(values)
    {
      var key := ChunkKey(at, f, id);
      if key !in store {
        LoadedFails(store, at, f, id + 1, count);
        return Err(CorruptValue);
      }
      var chunk := DecodeChunkU32At(store[key], f, id);
      if chunk.Err? {
        WideValuePersists(store, at, f, id, count);
        return Err(CorruptValue);
      }
      values := values + chunk.value;
    }
    if |values| != len { return Err(CorruptValue); }
    assert forall v :: v in values ==> v <= U32_MAX;
    r := Ok(values);
  }

  lemma {:induction false} LoadedExtends(store: Store, at: ArtifactId, f: Field, n: nat, m: nat)
    requires n <= m && Loaded(store, at, f, m).Ok?
    ensures Loaded(store, at, f, n).Ok? && Loaded(store, at, f, n).value <= Loaded(store, at, f, m).value
  {
    hide DecodeChunk;
    hide ChunkKey;
    if n < m { LoadedExtends(store, at, f, n, m - 1); }
  }

  /** A chunk that does not decode to 32-bit values spoils every longer load. */
  lemma WideValuePersists(store: Store, at: ArtifactId, f: Field, id: nat, count: nat)
    requires id < count && ChunkKey(at, f, id) in store
    requires DecodeChunk(store[ChunkKey(at, f, id)], f, id).Ok? ==>
               exists v :: v in DecodeChunk(store[ChunkKey(at, f, id)], f, id).value && v > U32_MAX
    ensures Loaded(store, at, f, count).Ok? ==> exists v :: v in Loaded(store, at, f, count).value && v > U32_MAX
  {
    hide DecodeChunk;
    hide ChunkKey;
    if Loaded(store, at, f, count).Ok? {
      LoadedExtends(store, at, f, id + 1, count);
      var values := DecodeChunk(store[ChunkKey(at, f, id)], f, id).value;
      var v :| v in values && v > U32_MAX;
      assert Loaded(store, at, f, id + 1).value == Loaded(store, at, f, id).value + values;
      assert v in Loaded(store, at, f, id + 1).value;
      assert v in Loaded(store, at, f, count).value;
    }
  }

  // The whole artifact.

  /** `decode_graphblas_csc`: the older single-record form. */
  function DecodeLegacy(value: Bytes, at: ArtifactId): Result<Csc>
    requires ValidId(at)
  {
    var magic := AsciiBytes(LEGACY_MAGIC);
    if magic <= value then DecodeLegacyFields(value[|magic|..], at) else Err(CorruptValue)
  }

  /** Behind its magic. */
  function DecodeLegacyFields(rest: Bytes, at: ArtifactId): Result<Csc> {
    var (cell, r1) :- ReadBytes(rest);
    var (edgeType, r2) :- ReadBytes(r1);
    var (epoch, r3) :- ReadU64(r2);
    if TextValue(cell) != Ok(at.cell) || TextValue(edgeType) != Ok(at.edgeType) || epoch != at.epoch
    then Err(CorruptValue)
    else
      var (vertices, r4) :- ReadU64s(r3);
      var (pointers, r5) :- ReadU64s(r4);
      var (indices, r6) :- ReadU64s(r5);
      if r6 != [] then Err(CorruptValue)
      else
        var _ :- Validate(Csc(vertices, pointers, indices));
        Ok(Csc(vertices, pointers, indices))
  }

  /** `graphblas_csc`: nothing stored, or a checked and validated image. */
  function ReadArtifact(store: Store, at: ArtifactId): Result<Option<Csc>>
    requires ValidId(at)
  {
    if CscKey(at) !in store then Ok(None)
    else
      var value := store[CscKey(at)];
      if AsciiBytes(LEGACY_MAGIC) <= value then
        var c :- DecodeLegacy(value, at);
        Ok(Some(c))
      else
        var m :- DecodeManifest(value);
        if m.id != at || |m.lens| != 3 || |m.chunks| != 3 then Err(CorruptValue)
        else
          var vertices :- LoadField(store, at, Vertices, m.chunks[0], m.lens[0]);
          var pointers :- LoadField(store, at, Pointers, m.chunks[1], m.lens[1]);
          var indices :- LoadField(store, at, Indices, m.chunks[2], m.lens[2]);
          var c := Csc(vertices, pointers, indices);
          if CscChecksum(c) != m.checksum then Err(CorruptValue)
          else
            var _ :- Validate(c);
            Ok(Some(c))
  }

  /** A record in the chunked form is there, not the older single-record one. */
  predicate Chunked(store: Store, at: ArtifactId) {
    CscKey(at) in store && !(AsciiBytes(LEGACY_MAGIC) <= store[CscKey(at)])
  }

  /** Whatever the store holds, an image that is read passed validation. */
  lemma ReadIsWellFormed(store: Store, at: ArtifactId)
    requires ValidId(at) && ReadArtifact(store, at).Ok? && ReadArtifact(store, at).value.Some?
    ensures WellFormed(ReadArtifact(store, at).value.value)
  {
    hide LoadField;
    hide DecodeManifest;
    hide ReadBytes;
    hide ReadU64s;
    hide ReadU64;
    hide TextValue;
    hide CscChecksum;
    hide Validate;
    hide WellFormed;
    ValidateExact(ReadArtifact(store, at).value.value);
  }

  // The older record.

  /** Its layout: the magic, then cell and edge type behind their lengths, the
      epoch, and the three arrays behind their counts. */
  function LegacyRecord(at: ArtifactId, c: Csc): Bytes
    requires ValidId(at)
  {
    AsciiBytes(LEGACY_MAGIC) + LegacyFields(at, c)
  }

  function LegacyFields(at: ArtifactId, c: Csc): Bytes
    requires ValidId(at)
  {
    ComponentAscii(at.cell);
    ComponentAscii(at.edgeType);
    WriteBytes(AsciiBytes(at.cell))
    + (WriteBytes(AsciiBytes(at.edgeType))
       + (Le(at.epoch, 8) + (WriteU64s(c.vertices) + (WriteU64s(c.pointers) + (WriteU64s(c.indices) + [])))))
  }

  /** The fields one by one, each with what is left behind it. */
  ghost predicate LegacySplit(rest: Bytes, at: ArtifactId, c: Csc, r: seq<Bytes>)
    requires ValidId(at) && |r| == 6
  {
    && IsAscii(at.cell) && IsAscii(at.edgeType)
    && rest == WriteBytes(AsciiBytes(at.cell)) + r[0] && r[0] == WriteBytes(AsciiBytes(at.edgeType)) + r[1]
    && r[1] == Le(at.epoch, 8) + r[2] && r[2] == WriteU64s(c.vertices) + r[3]
    && r[3] == WriteU64s(c.pointers) + r[4] && r[4] == WriteU64s(c.indices) + r[5] && r[5] == []
  }

  lemma LegacySplits(at: ArtifactId, c: Csc) returns (r: seq<Bytes>)
    requires ValidId(at)
    ensures |r| == 6 && LegacySplit(LegacyFields(at, c), at, c, r)
  {
    hide AsciiBytes, WriteBytes, WriteU64s, ValidId, IsAscii;
    LegacyText(at);
    var i := WriteU64s(c.indices) + [];
    var p := WriteU64s(c.pointers) + i;
    var v := WriteU64s(c.vertices) + p;
    var e := Le(at.epoch, 8) + v;
    r := [WriteBytes(AsciiBytes(at.edgeType)) + e, e, v, p, i, []];
  }

  lemma SplitIsFields(rest: Bytes, at: ArtifactId, c: Csc, r: seq<Bytes>)
    requires ValidId(at) && |r| == 6 && LegacySplit(rest, at, c, r)
    ensures rest == LegacyFields(at, c)
  {
    hide AsciiBytes, WriteBytes, WriteU64s, ValidId, IsAscii;
  }

  /** A record in that layout reads back as its image, and as nothing under another
      identity. */
  lemma LegacyDecodes(at: ArtifactId, stored: ArtifactId, c: Csc)
    requires ValidId(at) && ValidId(stored) && FitsMachine(c) && WellFormed(c)
    requires |stored.cell| <= U64_MAX && |stored.edgeType| <= U64_MAX
    ensures DecodeLegacyFields(LegacyFields(stored, c), at) == if at == stored then Ok(c) else Err(CorruptValue)
  {
    LegacyText(stored);
    hide AsciiBytes, TextValue, ReadBytes, ReadU64, ReadU64s, WriteBytes, WriteU64s, Validate, WellFormed, ValidId;
    hide LegacyFields, IsAscii;
    var r := LegacySplits(stored, c);
    ReadBytesWrote(AsciiBytes(stored.cell), r[0]);
    ReadBytesWrote(AsciiBytes(stored.edgeType), r[1]);
    ReadU64Wrote(stored.epoch, r[2]);
    ReadU64sWrote(c.vertices, r[3]);
    ReadU64sWrote(c.pointers, r[4]);
    ReadU64sWrote(c.indices, r[5]);
    ValidateExact(c);
    assert Csc(c.vertices, c.pointers, c.indices) == c;
  }

  lemma LegacyText(at: ArtifactId)
    requires ValidId(at)
    ensures IsAscii(at.cell) && IsAscii(at.edgeType)
    ensures TextValue(AsciiBytes(at.cell)) == Ok(at.cell) && TextValue(AsciiBytes(at.edgeType)) == Ok(at.edgeType)
  {
    hide TextValue, AsciiBytes;
    ComponentAscii(at.cell);
    ComponentAscii(at.edgeType);
    AsciiRoundTrip(at.cell);
    AsciiRoundTrip(at.edgeType);
  }

  lemma LegacyAccepted(rest: Bytes, at: ArtifactId, c: Csc)
    requires ValidId(at) && DecodeLegacyFields(rest, at) == Ok(c)
    ensures WellFormed(c) && rest == LegacyFields(at, c)
  {
    hide AsciiBytes, TextValue, ReadBytes, ReadU64, ReadU64s, WriteBytes, WriteU64s, Validate, WellFormed, ValidId;
    hide LegacyFields, IsAscii;
    LegacyText(at);
    var x := ReadBytes(rest).value;
    var y := ReadBytes(x.1).value;
    var z := ReadU64(y.1).value;
    var v := ReadU64s(z.1).value;
    var p := ReadU64s(v.1).value;
    var i := ReadU64s(p.1).value;
    ReadBytesExactly(rest, x.0, x.1);
    ReadBytesExactly(x.1, y.0, y.1);
    ReadU64Exactly(y.1, z.0, z.1);
    ReadU64sExactly(z.1, v.0, v.1);
    ReadU64sExactly(v.1, p.0, p.1);
    ReadU64sExactly(p.1, i.0, i.1);
    TextExactly(x.0, at.cell);
    TextExactly(y.0, at.edgeType);
    ValidateExact(c);
    SplitIsFields(rest, at, c, [x.1, y.1, z.1, v.1, p.1, i.1]);
  }

  /** Behind the magic the older record is accepted as an image exactly if it is
      that image's layout under this identity. */
  lemma LegacyExactly(rest: Bytes, at: ArtifactId, c: Csc)
    requires ValidId(at) && |at.cell| <= U64_MAX && |at.edgeType| <= U64_MAX && FitsMachine(c)
    ensures DecodeLegacyFields(rest, at) == Ok(c) <==> WellFormed(c) && rest == LegacyFields(at, c)
  {
    hide DecodeLegacyFields, LegacyFields, WellFormed, ValidId;
    if WellFormed(c) { LegacyDecodes(at, at, c); }
    if DecodeLegacyFields(rest, at) == Ok(c) { LegacyAccepted(rest, at, c); }
  }

  /** A stored older record reads back as its image. */
  lemma LegacyReads(store: Store, at: ArtifactId, stored: ArtifactId, c: Csc)
    requires ValidId(at) && ValidId(stored) && FitsMachine(c) && WellFormed(c)
    requires |stored.cell| <= U64_MAX && |stored.edgeType| <= U64_MAX
    requires CscKey(at) in store && store[CscKey(at)] == LegacyRecord(stored, c)
    ensures ReadArtifact(store, at) == if at == stored then Ok(Some(c)) else Err(CorruptValue)
  {
    hide CscKey, AsciiBytes, DecodeLegacyFields, LegacyFields, WellFormed, FitsMachine, ValidId;
    var magic, value := AsciiBytes(LEGACY_MAGIC), LegacyRecord(stored, c);
    LegacyDecodes(at, stored, c);
    assert magic <= value && value[|magic|..] == LegacyFields(stored, c);
  }

  // Written artifacts read back.

  /** Everything written for one artifact: its chunk records and its manifest
      record. */
  function ArtifactOps(at: ArtifactId, c: Csc): seq<WriteOp>
    requires ValidId(at) && FitsMachine(c)
  {
    CscRecords(at, c) + [Put(CscKey(at), EncodeManifest(ManifestOf(at, c)))]
  }

  /** Every chunk of every field is in the store under its key. */
  ghost predicate ChunksStored(store: Store, at: ArtifactId, f: Field, chunks: seq<seq<U64>>) {
    forall id :: 0 <= id < |chunks| ==>
      ChunkKey(at, f, id) in store && store[ChunkKey(at, f, id)] == EncodeChunk(f, id, chunks[id])
  }

  lemma {:induction false} StoredChunksLoad(store: Store, at: ArtifactId, f: Field, chunks: seq<seq<U64>>, n: nat)
    requires n <= |chunks| && ChunksStored(store, at, f, chunks)
    requires |chunks| <= U64_MAX && forall c :: c in chunks ==> |c| <= U64_MAX
    ensures Loaded(store, at, f, n) == Ok(Flat(chunks[..n]))
  {
    hide DecodeChunk;
    hide EncodeChunk;
    hide ChunkKey;
    if n > 0 {
      StoredChunksLoad(store, at, f, chunks, n - 1);
      assert chunks[n - 1] in chunks;
      ChunkRoundTrip(f, n - 1, chunks[n - 1]);
      assert chunks[..n][..n - 1] == chunks[..n - 1];
    }
  }

  lemma StoredFieldLoads(store: Store, at: ArtifactId, f: Field, values: seq<U64>)
    requires ChunksStored(store, at, f, Chunks(values)) && |values| <= U64_MAX
    ensures LoadField(store, at, f, ChunkCount(|values|), |values|) == Ok(values)
  {
    hide ChunksStored;
    hide Chunks;
    hide Flat;
    hide Loaded;
    ChunksFaithful(values);
    assert forall c :: c in Chunks(values) ==> |c| <= CHUNK <= U64_MAX;
    StoredChunksLoad(store, at, f, Chunks(values), |Chunks(values)|);
    assert Chunks(values)[..|Chunks(values)|] == Chunks(values);
  }

  /** The record of one chunk survives all the records written around it. */
  lemma FieldStored(store: Store, at: ArtifactId, f: Field, chunks: seq<seq<U64>>, before: seq<WriteOp>,
                    after: seq<WriteOp>)
    requires ValidId(at) && |chunks| <= U64_MAX
    requires forall o, id :: o in after && 0 <= id < |chunks| ==> o.key != ChunkKey(at, f, id)
    ensures ChunksStored(ApplyOps(store, before + ChunkRecords(at, f, chunks) + after), at, f, chunks)
  {
    hide ApplyOps;
    hide ChunkKey;
    hide EncodeChunk;
    var recs := ChunkRecords(at, f, chunks);
    var all := before + recs + after;
    forall id | 0 <= id < |chunks|
      ensures ChunkKey(at, f, id) in ApplyOps(store, all)
           && ApplyOps(store, all)[ChunkKey(at, f, id)] == EncodeChunk(f, id, chunks[id])
    {
      var mine, later := before + recs[..id], recs[id + 1..] + after;
      assert all == mine + [recs[id]] + later;
      forall o | o in later ensures o.key != recs[id].key {
        if o in recs[id + 1..] {
          var j :| id + 1 <= j < |recs| && recs[j] == o;
          ArtifactKeysDistinct(at, f, id, f, j);
        }
      }
      DecidingOp(store, mine, recs[id], later);
    }
  }

  lemma OtherRecords(at: ArtifactId, f: Field, count: nat, g: Field, chunks: seq<seq<U64>>)
    requires ValidId(at) && f != g && count <= U64_MAX && |chunks| <= U64_MAX
    ensures forall o, id :: o in ChunkRecords(at, g, chunks) && 0 <= id < count ==> o.key != ChunkKey(at, f, id)
  {
    hide ChunkKey;
    forall o, id | o in ChunkRecords(at, g, chunks) && 0 <= id < count ensures o.key != ChunkKey(at, f, id) {
      var j :| 0 <= j < |chunks| && ChunkRecords(at, g, chunks)[j] == o;
      ArtifactKeysDistinct(at, f, id, g, j);
    }
  }

  lemma ManifestRecordApart(at: ArtifactId, f: Field, count: nat)
    requires ValidId(at) && count <= U64_MAX
    ensures forall id :: 0 <= id < count ==> ChunkKey(at, f, id) != CscKey(at)
  {
    hide ChunkKey;
    hide CscKey;
    forall id | 0 <= id < count ensures ChunkKey(at, f, id) != CscKey(at) {
      ArtifactKeysDistinct(at, f, id, f, id);
    }
  }

  lemma ManifestIsNotLegacy(m: Manifest)
    requires ValidId(m.id)
    ensures !(AsciiBytes(LEGACY_MAGIC) <= EncodeManifest(m))
  {
    hide Digits;
    hide Keys.Decimals;
    var fields := ManifestFields(m);
    assert Join(fields, '\t') == MANIFEST_MAGIC + "\t" + Join(fields[1..], '\t');
    var text := EncodeManifestText(m);
    assert text[5] == MANIFEST_MAGIC[5] == '-';
    assert LEGACY_MAGIC[5] == 'b';
    assert AsciiBytes(LEGACY_MAGIC)[5] != EncodeManifest(m)[5];
  }

  lemma ChunkCountBound(len: nat)
    requires len <= U64_MAX
    ensures ChunkCount(len) <= U64_MAX
  {
  }

  lemma ArtifactStored(base: Store, at: ArtifactId, c: Csc)
    requires ValidId(at) && FitsMachine(c)
    ensures HoldsArtifact(ApplyOps(base, ArtifactOps(at, c)), at, c)
  {
    hide ApplyOps;
    hide ArtifactOps;
    hide ChunksStored;
    hide Chunks;
    hide ChunkRecords;
    hide EncodeManifest;
    hide ManifestOf;
    hide CscKey;
    hide ChunkKey;
    hide ChunkCount;
    hide ValidId;
    hide FitsMachine;
    ManifestKeepsId(at, c);
    var v, p, i := Chunks(c.vertices), Chunks(c.pointers), Chunks(c.indices);
    var rv, rp, ri := ChunkRecords(at, Vertices, v), ChunkRecords(at, Pointers, p), ChunkRecords(at, Indices, i);
    var last := Put(CscKey(at), EncodeManifest(ManifestOf(at, c)));
    OpsShape(at, c);
    CountsFit(c);
    OtherRecords(at, Vertices, |v|, Pointers, p);
    OtherRecords(at, Vertices, |v|, Indices, i);
    OtherRecords(at, Pointers, |p|, Indices, i);
    ManifestRecordApart(at, Vertices, |v|);
    ManifestRecordApart(at, Pointers, |p|);
    ManifestRecordApart(at, Indices, |i|);
    FieldStored(base, at, Vertices, v, [], rp + ri + [last]);
    FieldStored(base, at, Pointers, p, rv, ri + [last]);
    FieldStored(base, at, Indices, i, rv + rp, [last]);
    DecidingOp(base, rv + rp + ri, last, []);
    assert [] + rv + (rp + ri + [last]) == rv + rp + ri + [last];
    assert rv + rp + (ri + [last]) == rv + rp + ri + [last];
    assert (rv + rp) + ri + [last] == rv + rp + ri + [last];
    assert rv + rp + ri + [last] + [] == rv + rp + ri + [last];
  }

  lemma ManifestKeepsId(at: ArtifactId, c: Csc)
    requires FitsMachine(c)
    ensures ManifestOf(at, c).id == at
  {
  }

  lemma OpsShape(at: ArtifactId, c: Csc)
    requires ValidId(at) && FitsMachine(c)
    ensures ArtifactOps(at, c)
         == ChunkRecords(at, Vertices, Chunks(c.vertices)) + ChunkRecords(at, Pointers, Chunks(c.pointers))
          + ChunkRecords(at, Indices, Chunks(c.indices)) + [Put(CscKey(at), EncodeManifest(ManifestOf(at, c)))]
  {
    hide Chunks;
    hide ChunkRecords;
    hide EncodeManifest;
  }

  lemma CountsFit(c: Csc)
    requires FitsMachine(c)
    ensures |Chunks(c.vertices)| == ChunkCount(|c.vertices|) <= U64_MAX
    ensures |Chunks(c.pointers)| == ChunkCount(|c.pointers|) <= U64_MAX
    ensures |Chunks(c.indices)| == ChunkCount(|c.indices|) <= U64_MAX
  {
    hide Chunks;
    ChunksFaithful(c.vertices);
    ChunksFaithful(c.pointers);
    ChunksFaithful(c.indices);
    ChunkCountBound(|c.vertices|);
    ChunkCountBound(|c.pointers|);
    ChunkCountBound(|c.indices|);
  }

  /** All chunks and the manifest record of an image are in the store. */
  ghost predicate HoldsArtifact(s: Store, at: ArtifactId, c: Csc)
    requires ValidId(at) && FitsMachine(c)
  {
    && ChunksStored(s, at, Vertices, Chunks(c.vertices))
    && ChunksStored(s, at, Pointers, Chunks(c.pointers))
    && ChunksStored(s, at, Indices, Chunks(c.indices))
    && CscKey(at) in s && s[CscKey(at)] == EncodeManifest(ManifestOf(at, c))
  }

  /** A store that holds an artifact's records reads back as that image:
      chunking, byte encoding, the manifest text and its checks, and the checksum
      all agree. */
  lemma StoredReads(s: Store, at: ArtifactId, c: Csc)
    requires ValidId(at) && FitsMachine(c) && WellFormed(c) && HoldsArtifact(s, at, c)
    ensures ReadArtifact(s, at) == Ok(Some(c))
  {
    hide ChunksStored;
    hide LoadField;
    hide EncodeManifest;
    hide DecodeManifest;
    hide Validate;
    hide WellFormed;
    hide CscChecksum;
    hide CscKey;
    hide AsciiBytes;
    ManifestBytesRoundTrip(at, c);
    ManifestIsNotLegacy(ManifestOf(at, c));
    StoredFieldLoads(s, at, Vertices, c.vertices);
    StoredFieldLoads(s, at, Pointers, c.pointers);
    StoredFieldLoads(s, at, Indices, c.indices);
    ValidateExact(c);
    assert Csc(c.vertices, c.pointers, c.indices) == c;
  }

  /** A manifest of another cell, edge type or epoch is refused. */
  lemma ForeignIsRefused(s: Store, at: ArtifactId, other: ArtifactId, c: Csc)
    requires ValidId(at) && ValidId(other) && FitsMachine(c) && other != at
    requires CscKey(at) in s && s[CscKey(at)] == EncodeManifest(ManifestOf(other, c))
    ensures ReadArtifact(s, at).Err?
  {
    hide LoadField, EncodeManifest, DecodeManifest, Validate, CscKey, AsciiBytes, CscChecksum;
    ManifestBytesRoundTrip(other, c);
    ManifestIsNotLegacy(ManifestOf(other, c));
    ManifestKeepsId(other, c);
  }

  /** The images agree in size and in every stored value but one, of which one byte
      is off. */
  ghost predicate OneByteDamaged(c: Csc, d: Csc, i: nat, at: nat) {
    && |c.vertices| == |d.vertices| && |c.pointers| == |d.pointers| && |c.indices| == |d.indices|
    && OneValueOff(Sections(c), Sections(d), i, at)
  }

  /** One damaged byte in one stored value is always noticed: chunks of the damaged
      image under the manifest of the intact one are refused. */
  lemma DamageIsRefused(s: Store, at: ArtifactId, c: Csc, d: Csc, i: nat, byte: nat)
    requires ValidId(at) && FitsMachine(c) && OneByteDamaged(c, d, i, byte)
    requires ChunksStored(s, at, Vertices, Chunks(d.vertices)) && ChunksStored(s, at, Pointers, Chunks(d.pointers))
    requires ChunksStored(s, at, Indices, Chunks(d.indices))
    requires CscKey(at) in s && s[CscKey(at)] == EncodeManifest(ManifestOf(at, c))
    ensures ReadArtifact(s, at).Err?
  {
    hide ChunksStored, LoadField, EncodeManifest, DecodeManifest, Validate, CscKey, AsciiBytes, Chunks, Fold,
        OneValueOff;
    ManifestBytesRoundTrip(at, c);
    ManifestIsNotLegacy(ManifestOf(at, c));
    StoredFieldLoads(s, at, Vertices, d.vertices);
    StoredFieldLoads(s, at, Pointers, d.pointers);
    StoredFieldLoads(s, at, Indices, d.indices);
    OneValueNoticed(SEED, Sections(c), Sections(d), i, byte);
    assert Csc(d.vertices, d.pointers, d.indices) == d;
  }

  /** A written artifact reads back, whatever the store held before. */
  lemma WrittenReads(base: Store, at: ArtifactId, c: Csc)
    requires ValidId(at) && FitsMachine(c) && WellFormed(c)
    ensures ReadArtifact(ApplyOps(base, ArtifactOps(at, c)), at) == Ok(Some(c))
  {
    hide *;
    ArtifactStored(base, at, c);
    StoredReads(ApplyOps(base, ArtifactOps(at, c)), at, c);
  }
}

/** From pushed edges to the stored artifact and back. */
module ArtifactPipeline {
  import opened Basics
  import opened Ascending
  import opened Binary
  import opened WriteBatch
  import opened Rows
  import opened CscImage
  import opened CscArtifact
  import opened ArtifactIo
  import opened ArtifactLoad

  /** A vector of edges occupies 16 bytes an entry and at most half of the
      address space. */
  const MAX_VEC: int := 0x7FF_FFFF_FFFF_FFFF

  lemma {:induction false} FirstsCard(edges: set<Edge>)
    ensures |Sources(edges)| <= |edges|
  {
    if edges != {} {
      var e :| e in edges;
      FirstsCard(edges - {e});
      assert Sources(edges) == Sources(edges - {e}) + {e.0};
    }
  }

  ghost function Dests(edges: set<Edge>): set<U64> { set e | e in edges :: e.1 }

  lemma {:induction false} SecondsCard(edges: set<Edge>)
    ensures |Dests(edges)| <= |edges|
  {
    if edges != {} {
      var e :| e in edges;
      SecondsCard(edges - {e});
      assert Dests(edges) == Dests(edges - {e}) + {e.1};
    }
  }

  /** Every endpoint of some edge. */
  ghost function Ends(edges: set<Edge>): set<U64> { Sources(edges) + Dests(edges) }

  lemma DictionaryIsEnds(rows: RowMap)
    requires Normal(rows)
    ensures Elems(DictionaryOf(rows)) == Ends(Edges(rows)) && |DictionaryOf(rows)| == |Ends(Edges(rows))|
  {
    hide Listing;
    var edges := Edges(rows);
    forall v ensures v in Endpoints(rows) <==> v in Ends(edges) {
      if v in Endpoints(rows) {
        if v in rows {
          assert (v, rows[v][0]) in edges && (v, rows[v][0]).0 == v;
        } else {
          var s :| s in rows && v in rows[s];
          assert (s, v) in edges && (s, v).1 == v;
        }
      }
    }
    assert Endpoints(rows) == Ends(edges);
    AscendingNoDup(DictionaryOf(rows));
  }

  lemma DictionaryBound(rows: RowMap)
    requires Normal(rows)
    ensures |DictionaryOf(rows)| <= 2 * |Edges(rows)|
  {
    hide DictionaryOf, Edges, Sources, Dests;
    FirstsCard(Edges(rows));
    SecondsCard(Edges(rows));
    DictionaryIsEnds(rows);
    UnionCard(Sources(Edges(rows)), Dests(Edges(rows)));
  }

  lemma UnionCard(a: set<U64>, b: set<U64>)
    ensures |a + b| <= |a| + |b|
  {
    assert a + b == a + (b - a);
    SubsetCard(b - a, b);
  }

  lemma {:induction false} ElemsCard<T>(s: seq<T>)
    ensures |Elems(s)| <= |s|
  {
    if s != [] {
      ElemsCard(s[..|s| - 1]);
      assert s == s[..|s| - 1] + [s[|s| - 1]];
      assert Elems(s) == Elems(s[..|s| - 1]) + {s[|s| - 1]};
    }
  }

  /** The image of normal rows of so many edges fits the machine and is faithful. */
  lemma EdgesImage(edges: set<Edge>, rows: RowMap)
    requires |edges| <= MAX_VEC && Normal(rows) && Edges(rows) == edges
    ensures |DictionaryOf(rows)| < U64_MAX && EdgeTotal(rows) == |edges| <= U64_MAX
    ensures FitsMachine(CscOf(rows)) && WellFormed(CscOf(rows)) && Validate(CscOf(rows)).Ok?
    ensures DecodedUpto(CscOf(rows), |CscOf(rows).vertices|) == AdjacencyOf(edges)
  {
    hide *;
    Bounds();
    DictionaryBound(rows);
    CscFaithful(rows);
    ImageOfRows(rows, ArtifactId("", "", 0));
  }

  /** In particular of normalised pushes. */
  lemma PushedImage(edges: seq<Edge>, rows: RowMap)
    requires |edges| <= MAX_VEC && Normal(rows) && Edges(rows) == Elems(edges)
    ensures |DictionaryOf(rows)| < U64_MAX && EdgeTotal(rows) == |Elems(edges)| <= U64_MAX
    ensures FitsMachine(CscOf(rows)) && WellFormed(CscOf(rows)) && Validate(CscOf(rows)).Ok?
    ensures DecodedUpto(CscOf(rows), |CscOf(rows).vertices|) == AdjacencyOf(Elems(edges))
  {
    hide *;
    ElemsCard(edges);
    EdgesImage(Elems(edges), rows);
  }

  lemma Bounds()
    ensures 2 * MAX_VEC < U64_MAX
  {
  }

  /** The artifact reads as the well-formed image `c` of exactly these edges. */
  ghost predicate ReadsAs(store: Store, at: ArtifactId, edges: set<Edge>, c: Csc)
    requires ValidId(at)
  {
    && ReadArtifact(store, at) == Ok(Some(c)) && WellFormed(c)
    && |c.indices| == |edges| && |c.vertices| == |Ends(edges)| && Elems(c.vertices) == Ends(edges)
    && DecodedUpto(c, |c.vertices|) == AdjacencyOf(edges)
  }

  /** Push, normalise, stream the chunks, flush, publish the manifest: whatever
      the order and multiplicity of the edges and whatever the store held, the
      artifact read back decodes to exactly the pushed edges. */
  method BuildArtifact(edges: seq<Edge>, at: ArtifactId, base: Store) returns (store: Store)
    requires ValidId(at) && |edges| <= MAX_VEC
    ensures Chunked(store, at) && exists c :: ReadsAs(store, at, Elems(edges), c)
  {
    hide *;
    var rows := new MatrixRows();
    PushedNone();
    for i := 0 to |edges|
      invariant rows.rows == PushAll(edges[..i])
    {
      PushedSnoc(edges, i);
      rows.Push(edges[i].0, edges[i].1);
    }
    assert edges[..|edges|] == edges;
    PushAllEdges(edges);
    rows.Normalize();
    PushedImage(edges, rows.rows);
    LiveCount(rows.rows, rows.liveEdges);
    ImageOfRows(rows.rows, at);
    var writer := new ArtifactWriter(base);
    FreshWriter(writer);
    var manifest := AppendRows(writer, at, rows.rows, rows.liveEdges);
    WriterState(writer);
    writer.FlushPending();
    ghost var c := CscOf(rows.rows);
    OpsSplit(base, at, c);
    ManifestKeepsId(at, c);
    store := writer.store[CscKey(at) := EncodeManifest(manifest.value)];
    DictionaryIsEnds(rows.rows);
    VerticesOf(rows.rows);
    WrittenReads(base, at, c);
    WrittenChunked(writer.store, at, manifest.value);
    ReadsAsIs(store, at, Elems(edges), c);
  }

  lemma WrittenChunked(store: Store, at: ArtifactId, m: Manifest)
    requires ValidId(at) && m.id == at
    ensures Chunked(store[CscKey(at) := EncodeManifest(m)], at)
  {
    hide CscKey, EncodeManifest, AsciiBytes;
    ManifestIsNotLegacy(m);
  }

  lemma ReadsAsIs(store: Store, at: ArtifactId, edges: set<Edge>, c: Csc)
    requires ValidId(at) && ReadArtifact(store, at) == Ok(Some(c)) && WellFormed(c)
    requires |c.indices| == |edges| && |c.vertices| == |Ends(edges)| && Elems(c.vertices) == Ends(edges)
    requires DecodedUpto(c, |c.vertices|) == AdjacencyOf(edges)
    ensures ReadsAs(store, at, edges, c)
  {
    hide ReadArtifact, WellFormed, DecodedUpto, AdjacencyOf, Ends;
  }

  lemma VerticesOf(rows: RowMap)
    requires EdgeTotal(rows) <= U64_MAX
    ensures CscOf(rows).vertices == DictionaryOf(rows)
  {
  }

  lemma PushedNone()
    ensures PushAll([]) == map[]
  {
  }

  lemma PushedSnoc(edges: seq<Edge>, i: nat)
    requires i < |edges|
    ensures PushAll(edges[..i + 1]) == Pushed(PushAll(edges[..i]), edges[i].0, edges[i].1)
  {
    assert edges[..i + 1][..i] == edges[..i];
  }

  lemma LiveCount(rows: RowMap, live: U64)
    requires EdgeTotal(rows) == |Edges(rows)| <= U64_MAX && live == Min(|Edges(rows)|, U64_MAX)
    ensures live == EdgeTotal(rows)
  {
  }

  lemma FreshWriter(w: ArtifactWriter)
    requires w.Valid() && w.log == []
    ensures forall records :: w.log + records == records
  {
  }

  lemma WriterState(w: ArtifactWriter)
    requires w.Valid()
    ensures w.pending == |w.batch| && ApplyOps(w.store, w.batch) == ApplyOps(w.base, w.log)
  {
  }

  lemma OpsSplit(base: Store, at: ArtifactId, c: Csc)
    requires ValidId(at) && FitsMachine(c)
    ensures ApplyOps(base, ArtifactOps(at, c))
         == ApplyOps(base, CscRecords(at, c))[CscKey(at) := EncodeManifest(ManifestOf(at, c))]
  {
    hide CscRecords;
    hide EncodeManifest;
    hide CscKey;
    var records := CscRecords(at, c);
    assert ArtifactOps(at, c)[..|records|] == records;
  }
}
