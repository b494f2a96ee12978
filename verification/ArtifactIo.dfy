/** Writing an artifact through the batching writer, reading it back, and the
    end-to-end guarantee. */
module ArtifactIo {
  import opened Basics
  import opened Ascending
  import opened Splitting
  import opened Numerals
  import opened Binary
  import opened WriteBatch
  import opened Rows
  import opened CscImage
  import opened Chunking
  import opened Checksum
  import opened CscArtifact
  import Keys
  import CscBuild

  // Writing.

  /** `GRAPH_ARTIFACT_WRITE_BATCH_KEYS`. */
  const WRITE_BATCH_KEYS: nat := 512

  /** The pending batch, its counter and the store it is flushed into. `log` is
      every record handed to the writer, `base` the store it started from. */
  class ArtifactWriter {
    var store: Store
    var batch: seq<WriteOp>
    var pending: nat
    ghost var log: seq<WriteOp>
    ghost const base: Store

    ghost predicate Valid()
      reads this
    {
      && pending == |batch| < WRITE_BATCH_KEYS
      && ApplyOps(store, batch) == ApplyOps(base, log)
    }

    constructor (store: Store)
      ensures Valid() && this.store == store == base && log == [] && batch == []
    {
      this.store, batch, pending, log, base := store, [], 0, [], store;
    }

    /** `put_artifact_record`: flushes when the batch is full. */
    method PutRecord(op: WriteOp)
      requires Valid()
      modifies this
      ensures Valid() && log == old(log) + [op]
    {
      ApplyOpsConcat(store, batch, [op]);
      ApplyOpsConcat(base, log, [op]);
      assert [op][..0] == [];
      batch := batch + [op];
      pending := pending + 1;
      log := log + [op];
      if pending >= WRITE_BATCH_KEYS {
        FlushPending();
      }
    }

    /** `flush_artifact_put_batch`: nothing is left pending and the store holds
        every record handed over so far. */
    method FlushPending()
      requires pending == |batch| && ApplyOps(store, batch) == ApplyOps(base, log)
      modifies this
      ensures Valid() && log == old(log) && batch == []
      ensures store == ApplyOps(base, log)
    {
      if pending > 0 {
        store := ApplyOps(store, batch);
        batch := [];
        pending := 0;
      }
    }
  }

  /** `append_graphblas_csc_field_chunks`. */
  method AppendField(w: ArtifactWriter, at: ArtifactId, f: Field, values: seq<U64>) returns (count: nat)
    requires w.Valid()
    modifies w
    ensures w.Valid() && w.log == old(w.log) + ChunkRecords(at, f, Chunks(values))
    ensures count == |Chunks(values)|
  {
    hide Chunks;
    hide ChunkRecord;
    var chunks := Chunks(values);
    ghost var start := w.log;
    count := 0;
    assert ChunkRecords(at, f, []) == [];
    while count < |chunks|
      invariant count <= |chunks| && w.Valid()
      invariant w.log == start + ChunkRecords(at, f, chunks[..count])
    {
      ghost var done := chunks[..count];
      assert chunks[..count + 1] == done + [chunks[count]];
      ChunkRecordsSnoc(at, f, done, chunks[count]);
      w.PutRecord(ChunkRecord(at, f, count, chunks[count]));
      count := count + 1;
    }
    assert chunks[..count] == chunks;
  }

  lemma RecordsConcat(log: seq<WriteOp>, at: ArtifactId, c: Csc)
    ensures log + FieldRecords(at, c, Vertices) + FieldRecords(at, c, Pointers) + FieldRecords(at, c, Indices)
         == log + CscRecords(at, c)
  {
    hide FieldRecords;
    var v, p, i := FieldRecords(at, c, Vertices), FieldRecords(at, c, Pointers), FieldRecords(at, c, Indices);
    assert log + v + p + i == log + (v + p + i);
  }

  lemma ManifestCounts(at: ArtifactId, c: Csc)
    requires FitsMachine(c)
    ensures ManifestOf(at, c).chunks == [|Chunks(c.vertices)|, |Chunks(c.pointers)|, |Chunks(c.indices)|]
  {
    ChunksFaithful(c.vertices);
    ChunksFaithful(c.pointers);
    ChunksFaithful(c.indices);
  }

  /** `append_graphblas_csc_chunks`: from a materialised image. */
  method AppendCsc(w: ArtifactWriter, at: ArtifactId, c: Csc) returns (m: Manifest)
    requires w.Valid() && FitsMachine(c)
    modifies w
    ensures w.Valid() && w.log == old(w.log) + CscRecords(at, c)
    ensures m == ManifestOf(at, c)
  {
    hide *;
    RecordsConcat(w.log, at, c);
    FieldsOf(at, c);
    ManifestCounts(at, c);
    ManifestShape(at, c);
    var vertexChunks := AppendField(w, at, Vertices, c.vertices);
    var pointerChunks := AppendField(w, at, Pointers, c.pointers);
    var indexChunks := AppendField(w, at, Indices, c.indices);
    var checksum := WholeChecksum(c);
    m := Manifest(at, CHUNK, [|c.vertices|, |c.pointers|, |c.indices|],
                  [vertexChunks, pointerChunks, indexChunks], checksum);
  }

  lemma FieldsOf(at: ArtifactId, c: Csc)
    ensures FieldRecords(at, c, Vertices) == ChunkRecords(at, Vertices, Chunks(c.vertices))
    ensures FieldRecords(at, c, Pointers) == ChunkRecords(at, Pointers, Chunks(c.pointers))
    ensures FieldRecords(at, c, Indices) == ChunkRecords(at, Indices, Chunks(c.indices))
  {
  }

  lemma ManifestShape(at: ArtifactId, c: Csc)
    requires FitsMachine(c)
    ensures |c.vertices| <= U64_MAX && |c.pointers| <= U64_MAX && |c.indices| <= U64_MAX && 0 <= CHUNK <= U64_MAX
    ensures forall n :: n in ManifestOf(at, c).chunks ==> 0 <= n <= U64_MAX
    ensures ManifestOf(at, c) == Manifest(at, CHUNK, [|c.vertices|, |c.pointers|, |c.indices|],
                                          ManifestOf(at, c).chunks, CscChecksum(c))
  {
  }

  lemma ChecksumSplit(c: Csc)
    ensures CscChecksum(c) == Fold(Fold(SEED, [1] + c.vertices + [2] + c.pointers + [3]), c.indices)
  {
    hide Fold;
    FoldConcat(SEED, [1] + c.vertices + [2] + c.pointers + [3], c.indices);
  }

  /** `graphblas_csc_checksum`, section by section. */
  method WholeChecksum(c: Csc) returns (r: U64)
    ensures r == CscChecksum(c)
  {
    hide *;
    var h := HeaderChecksum(c.vertices, c.pointers);
    h := FoldInto(h, c.indices);
    ChecksumSplit(c);
    r := h;
  }

  method HeaderChecksum(vertices: seq<U64>, pointers: seq<U64>) returns (h: U64)
    ensures h == Fold(SEED, [1] + vertices + [2] + pointers + [3])
  {
    hide *;
    h := FoldInto(SEED, [1]);
    FoldConcat(SEED, [1], vertices);
    h := FoldInto(h, vertices);
    FoldConcat(SEED, [1] + vertices, [2]);
    h := FoldInto(h, [2]);
    FoldConcat(SEED, [1] + vertices + [2], pointers);
    h := FoldInto(h, pointers);
    FoldConcat(SEED, [1] + vertices + [2] + pointers, [3]);
    h := FoldInto(h, [3]);
  }

  // The streaming writer.

  lemma StreamStep(full: seq<seq<U64>>, buffer: seq<U64>, done: seq<U64>, ordinal: U64, seed: U64)
    requires Flat(full) + buffer == done
    ensures Fold(seed, done + [ordinal]) == FoldU64(Fold(seed, done), ordinal)
    ensures Flat(full) + (buffer + [ordinal]) == done + [ordinal]
    ensures Flat(full + [buffer + [ordinal]]) + [] == done + [ordinal]
  {
    hide FoldU64;
    assert (done + [ordinal])[..|done|] == done;
    assert (full + [buffer + [ordinal]])[..|full|] == full;
    assert Flat(full) + (buffer + [ordinal]) == (Flat(full) + buffer) + [ordinal];
  }

  /** The index section while it is produced ordinal by ordinal: the buffer, the
      number of chunks cut and the running checksum. `done` is every ordinal
      pushed so far and `full` the chunks already written. */
  class IndexStream {
    const w: ArtifactWriter
    const at: ArtifactId
    var buffer: seq<U64>
    var count: nat
    var checksum: U64
    ghost var full: seq<seq<U64>>
    ghost var done: seq<U64>
    ghost const start: seq<WriteOp>
    ghost const seed: U64

    ghost predicate Valid()
      reads this, w
    {
      && w.Valid()
      && |buffer| < CHUNK && count == |full|
      && (forall c :: c in full ==> |c| == CHUNK)
      && Flat(full) + buffer == done
      && w.log == start + ChunkRecords(at, Indices, full)
      && checksum == Fold(seed, done)
    }

    constructor (w: ArtifactWriter, at: ArtifactId, checksum: U64)
      requires w.Valid()
      ensures Valid() && done == [] && start == w.log && seed == checksum && this.w == w && this.at == at
    {
      this.w, this.at, this.checksum := w, at, checksum;
      buffer, count, full, done := [], 0, [], [];
      start, seed := w.log, checksum;
    }

    /** One ordinal: folded, buffered, and a chunk cut when the buffer fills. */
    method Push(ordinal: U64)
      requires Valid()
      modifies this, w
      ensures Valid() && done == old(done) + [ordinal]
    {
      hide Fold;
      hide FoldU64;
      hide Flat;
      hide ChunkRecords;
      hide ChunkRecord;
      StreamStep(full, buffer, done, ordinal, seed);
      checksum := FoldU64(checksum, ordinal);
      done := done + [ordinal];
      buffer := buffer + [ordinal];
      if |buffer| == CHUNK {
        ChunkRecordsSnoc(at, Indices, full, buffer);
        w.PutRecord(ChunkRecord(at, Indices, count, buffer));
        full := full + [buffer];
        count := count + 1;
        buffer := [];
      }
    }

    /** The last, partial chunk; afterwards the chunks written are those of
        everything pushed. */
    method Finish()
      requires Valid()
      modifies this, w
      ensures w.Valid() && w.log == start + ChunkRecords(at, Indices, Chunks(done))
      ensures done == old(done) && count == |Chunks(done)| && checksum == old(checksum)
    {
      hide Fold;
      hide ChunkRecords;
      hide ChunkRecord;
      StreamedChunks(full, buffer);
      if buffer != [] {
        ChunkRecordsSnoc(at, Indices, full, buffer);
        w.PutRecord(ChunkRecord(at, Indices, count, buffer));
        count := count + 1;
      }
    }
  }

  /** The ordinals of one row, pushed one by one. */
  method StreamRow(stream: IndexStream, vs: seq<U64>, dsts: seq<U64>) returns (ok: bool)
    requires stream.Valid() && StrictlyAscending(vs)
    modifies stream, stream.w
    ensures ok <==> Elems(dsts) <= Elems(vs)
    ensures ok ==> stream.Valid() && stream.done == old(stream.done) + Ordinals(vs, dsts)
  {
    hide StrictlyAscending;
    hide Flat;
    hide Fold;
    hide ChunkRecords;
    ghost var before := stream.done;
    for j := 0 to |dsts|
      invariant stream.Valid() && stream.done == before + Ordinals(vs, dsts)[..j]
      invariant forall d :: d in dsts[..j] ==> d in vs
    {
      assert dsts[j] in Elems(dsts);
      match BinarySearch(vs, dsts[j]) {
        case None =>
          BinarySearchExact(vs, dsts[j]);
          return false;
        case Some(at) =>
          OrdinalExact(vs, dsts[j]);
          stream.Push(at);
          assert before + Ordinals(vs, dsts)[..j + 1] == before + Ordinals(vs, dsts)[..j] + [at];
      }
    }
    assert dsts[..|dsts|] == dsts;
    ok := true;
  }

  lemma IndicesStart(rows: RowMap, vs: seq<U64>)
    ensures IndicesUpto(rows, vs, 0) == []
  {
  }

  lemma IndicesStep(rows: RowMap, vs: seq<U64>, i: nat)
    requires i < |vs|
    ensures IndicesUpto(rows, vs, i + 1) == IndicesUpto(rows, vs, i) + Ordinals(vs, Row(rows, vs[i]))
    ensures vs[i] !in rows ==> IndicesUpto(rows, vs, i + 1) == IndicesUpto(rows, vs, i)
  {
  }

  /** The index section of a row map over its dictionary. */
  method StreamIndices(stream: IndexStream, rows: RowMap, vs: seq<U64>)
    requires stream.Valid() && stream.done == [] && StrictlyAscending(vs) && Closed(rows, vs)
    modifies stream, stream.w
    ensures stream.Valid() && stream.done == IndicesUpto(rows, vs, |vs|)
  {
    hide StrictlyAscending;
    hide Closed;
    hide Flat;
    hide Fold;
    hide ChunkRecords;
    hide Ordinals;
    hide IndicesUpto;
    IndicesStart(rows, vs);
    for i := 0 to |vs|
      invariant stream.Valid() && stream.done == IndicesUpto(rows, vs, i)
    {
      RowInside(rows, vs, i);
      IndicesStep(rows, vs, i);
      if vs[i] in rows {
        var _ := StreamRow(stream, vs, rows[vs[i]]);
      }
    }
  }

  /** `append_graphblas_csc_chunks_from_rows`: never materialises the index
      section, yet writes the same records and the same manifest as building the
      image first. */
  method AppendRows(w: ArtifactWriter, at: ArtifactId, rows: RowMap, liveEdges: U64) returns (r: Result<Manifest>)
    requires w.Valid() && |DictionaryOf(rows)| < U64_MAX
    requires EdgeTotal(rows) <= U64_MAX ==> liveEdges == EdgeTotal(rows)
    modifies w
    ensures r.Ok? <==> EdgeTotal(rows) <= U64_MAX
    ensures r.Ok? ==> FitsMachine(CscOf(rows)) && r.value == ManifestOf(at, CscOf(rows))
    ensures r.Ok? ==> w.Valid() && w.log == old(w.log) + CscRecords(at, CscOf(rows))
  {
    hide *;
    var vertices := CscBuild.RowsVertices(rows);
    var pointers := CscBuild.RowsPointers(rows, vertices);
    TotalOverDictionary(rows);
    if pointers.Err? { return Err(CorruptValue); }
    ghost var c := CscOf(rows);
    ImageOfRows(rows, at);
    RecordsConcat(w.log, at, c);
    FieldsOf(at, c);
    ManifestCounts(at, c);
    ManifestShape(at, c);
    ChecksumSplit(c);
    var header := HeaderChecksum(vertices, pointers.value);
    var vertexChunks := AppendField(w, at, Vertices, vertices);
    var pointerChunks := AppendField(w, at, Pointers, pointers.value);
    var stream := new IndexStream(w, at, header);
    StreamIndices(stream, rows, vertices);
    StreamChecksum(stream);
    stream.Finish();
    r := Ok(Manifest(at, CHUNK, [|vertices|, |pointers.value|, liveEdges],
                     [vertexChunks, pointerChunks, stream.count], stream.checksum));
  }

  lemma StreamChecksum(stream: IndexStream)
    requires stream.Valid()
    ensures stream.checksum == Fold(stream.seed, stream.done)
  {
  }

  lemma TotalOverDictionary(rows: RowMap)
    ensures EdgeTotal(rows) == Offset(rows, DictionaryOf(rows), |DictionaryOf(rows)|)
  {
  }

  lemma ImageOfRows(rows: RowMap, at: ArtifactId)
    requires EdgeTotal(rows) <= U64_MAX && |DictionaryOf(rows)| < U64_MAX
    ensures CscOf(rows).vertices == DictionaryOf(rows)
    ensures CscOf(rows).pointers == PointersUpto(rows, DictionaryOf(rows), |DictionaryOf(rows)|)
    ensures CscOf(rows).indices == IndicesUpto(rows, DictionaryOf(rows), |DictionaryOf(rows)|)
    ensures |CscOf(rows).indices| == EdgeTotal(rows)
    ensures FitsMachine(CscOf(rows))
  {
    hide DictionaryOf;
  }
}
