/** The nine stored results as the operations see them: each with the request it
    answers, its record, and what a retry gets back. */
module IdempotentResults {
  import opened Basics
  import opened Keys
  import opened Idempotency

  /** What an edge operation asks for. */
  datatype EdgeMutation = EdgeMutation(cell: string, edgeType: string, src: U64, dst: U64)

  predicate ValidMutation(m: EdgeMutation) { ValidComponent(m.cell) && ValidComponent(m.edgeType) }

  datatype SegmentCompactionResult = SegmentCompactionResult(
    compactedThrough: U64,
    sourceSegments: U64,
    deletedSegmentKeys: U64,
    deletedTombstoneKeys: U64,
    inputEdges: U64,
    outputEdges: U64)

  datatype CommitResult = CommitResult(epoch: U64, alreadyExisted: bool)

  datatype DeleteResult = DeleteResult(epoch: U64, deleted: bool)

  datatype VertexDeleteResult = VertexDeleteResult(
    epoch: U64,
    vertexDeleted: bool,
    incidentEdgesDeleted: U64,
    relationshipsDeleted: U64)

  datatype CellDropResult = CellDropResult(markerEpoch: U64, deletedKeys: U64, batches: U64, alreadyDropped: bool)

  datatype BulkImportResult = BulkImportResult(startEpoch: U64, endEpoch: U64, inserted: U64, alreadyExisted: U64)

  datatype RelationshipImportResult = RelationshipImportResult(
    startEpoch: U64,
    endEpoch: U64,
    relationshipsInserted: U64,
    relationshipsExisted: U64,
    edgesInserted: U64,
    edgesExisted: U64)

  datatype RelationshipCreateResult = RelationshipCreateResult(
    epoch: U64,
    relationshipId: U64,
    edgeInserted: bool,
    alreadyCreated: bool)

  function AsNumber(f: Field): U64 { if f.Number? then f.n else 0 }

  function AsFlag(f: Field): bool { f.Flag? && f.b }

  /** Fields that a request does not fix. */
  const ANY: Field := Number(0)

  // Segment compaction.

  function CompactionRecord(key: string, r: SegmentCompactionResult): string {
    Encode(SegmentCompaction,
           [Number(r.compactedThrough), Number(r.sourceSegments), Number(r.deletedSegmentKeys),
            Number(r.deletedTombstoneKeys), Number(r.inputEdges), Number(r.outputEdges), Word(key)])
  }

  function DecodeCompaction(key: string, through: U64, text: string): Result<SegmentCompactionResult> {
    var f :- Decode(SegmentCompaction, [Number(through), ANY, ANY, ANY, ANY, ANY, Word(key)], text);
    if |f| != 6 then Err(CorruptValue)
    else Ok(SegmentCompactionResult(AsNumber(f[0]), AsNumber(f[1]), AsNumber(f[2]), AsNumber(f[3]), AsNumber(f[4]),
                                    AsNumber(f[5])))
  }

  // Edge commit and delete.

  function CommitRecord(m: EdgeMutation, r: CommitResult): string {
    Encode(Commit,
           [Number(r.epoch), Flag(r.alreadyExisted), Word(m.cell), Word(m.edgeType), Number(m.src), Number(m.dst)])
  }

  function DecodeCommit(m: EdgeMutation, text: string): Result<CommitResult> {
    var f :- Decode(Commit, [ANY, ANY, Word(m.cell), Word(m.edgeType), Number(m.src), Number(m.dst)], text);
    if |f| != 2 then Err(CorruptValue) else Ok(CommitResult(AsNumber(f[0]), AsFlag(f[1])))
  }

  function DeleteRecord(m: EdgeMutation, r: DeleteResult): string {
    Encode(Delete, [Number(r.epoch), Flag(r.deleted), Word(m.cell), Word(m.edgeType), Number(m.src), Number(m.dst)])
  }

  function DecodeDelete(m: EdgeMutation, text: string): Result<DeleteResult> {
    var f :- Decode(Delete, [ANY, ANY, Word(m.cell), Word(m.edgeType), Number(m.src), Number(m.dst)], text);
    if |f| != 2 then Err(CorruptValue) else Ok(DeleteResult(AsNumber(f[0]), AsFlag(f[1])))
  }

  // Relationship delete.

  function RelationshipDeleteRecord(m: EdgeMutation, id: U64, r: DeleteResult): string {
    Encode(RelationshipDelete,
           [Number(r.epoch), Flag(r.deleted), Word(m.cell), Word(m.edgeType), Number(m.src), Number(m.dst), Number(id)])
  }

  function DecodeRelationshipDelete(m: EdgeMutation, id: U64, text: string): Result<DeleteResult> {
    var f :- Decode(RelationshipDelete,
                    [ANY, ANY, Word(m.cell), Word(m.edgeType), Number(m.src), Number(m.dst), Number(id)], text);
    if |f| != 2 then Err(CorruptValue) else Ok(DeleteResult(AsNumber(f[0]), AsFlag(f[1])))
  }

  // Vertex delete and cell drop.

  function VertexDeleteRecord(cell: string, vertex: U64, r: VertexDeleteResult): string {
    Encode(VertexDelete,
           [Number(r.epoch), Flag(r.vertexDeleted), Number(r.incidentEdgesDeleted), Number(r.relationshipsDeleted),
            Word(cell), Number(vertex)])
  }

  function DecodeVertexDelete(cell: string, vertex: U64, text: string): Result<VertexDeleteResult> {
    var f :- Decode(VertexDelete, [ANY, ANY, ANY, ANY, Word(cell), Number(vertex)], text);
    if |f| != 4 then Err(CorruptValue)
    else Ok(VertexDeleteResult(AsNumber(f[0]), AsFlag(f[1]), AsNumber(f[2]), AsNumber(f[3])))
  }

  function CellDropRecord(cell: string, key: string, r: CellDropResult): string {
    Encode(CellDrop,
           [Number(r.markerEpoch), Number(r.deletedKeys), Number(r.batches), Flag(r.alreadyDropped), Word(cell),
            Word(key)])
  }

  function DecodeCellDrop(cell: string, key: string, text: string): Result<CellDropResult> {
    var f :- Decode(CellDrop, [ANY, ANY, ANY, ANY, Word(cell), Word(key)], text);
    if |f| != 4 then Err(CorruptValue)
    else Ok(CellDropResult(AsNumber(f[0]), AsNumber(f[1]), AsNumber(f[2]), AsFlag(f[3])))
  }

  // Imports.

  function BulkImportRecord(key: string, fingerprint: U64, r: BulkImportResult): string {
    Encode(BulkImport,
           [Number(r.startEpoch), Number(r.endEpoch), Number(r.inserted), Number(r.alreadyExisted), Number(fingerprint),
            Word(key)])
  }

  function DecodeBulkImport(key: string, fingerprint: U64, text: string): Result<BulkImportResult> {
    var f :- Decode(BulkImport, [ANY, ANY, ANY, ANY, Number(fingerprint), Word(key)], text);
    if |f| != 4 then Err(CorruptValue)
    else Ok(BulkImportResult(AsNumber(f[0]), AsNumber(f[1]), AsNumber(f[2]), AsNumber(f[3])))
  }

  function RelationshipImportRecord(key: string, fingerprint: U64, r: RelationshipImportResult): string {
    Encode(RelationshipImport,
           [Number(r.startEpoch), Number(r.endEpoch), Number(r.relationshipsInserted), Number(r.relationshipsExisted),
            Number(r.edgesInserted), Number(r.edgesExisted), Number(fingerprint), Word(key)])
  }

  function DecodeRelationshipImport(key: string, fingerprint: U64, text: string): Result<RelationshipImportResult> {
    var f :- Decode(RelationshipImport, [ANY, ANY, ANY, ANY, ANY, ANY, Number(fingerprint), Word(key)], text);
    if |f| != 6 then Err(CorruptValue)
    else Ok(RelationshipImportResult(AsNumber(f[0]), AsNumber(f[1]), AsNumber(f[2]), AsNumber(f[3]), AsNumber(f[4]),
                                     AsNumber(f[5])))
  }

  // Relationship create.

  function RelationshipCreateRecord(m: EdgeMutation, fingerprint: U64, r: RelationshipCreateResult): string {
    Encode(RelationshipCreate,
           [Number(r.epoch), Number(r.relationshipId), Flag(r.edgeInserted), Flag(r.alreadyCreated),
            Number(fingerprint), Word(m.cell), Word(m.edgeType), Number(m.src), Number(m.dst)])
  }

  function DecodeRelationshipCreate(m: EdgeMutation, fingerprint: U64, text: string): Result<RelationshipCreateResult> {
    var f :- Decode(RelationshipCreate,
                    [ANY, ANY, ANY, ANY, Number(fingerprint), Word(m.cell), Word(m.edgeType), Number(m.src),
                     Number(m.dst)],
                    text);
    if |f| != 4 then Err(CorruptValue)
    else Ok(RelationshipCreateResult(AsNumber(f[0]), AsNumber(f[1]), AsFlag(f[2]), AsFlag(f[3])))
  }

  // A retry gets exactly the stored result if it asks for the same thing, and a
  // conflict otherwise.

  /** The outcome fields of every kind come first. */
  lemma {:induction false} OutcomeFirst(k: Kind, f: seq<Field>, m: nat, n: nat)
    requires |f| == |Layout(k)| && m <= |f| && n <= |f|
    requires forall i :: 0 <= i < |f| ==> (Layout(k)[i].role != Identity <==> i < m)
    ensures StoredOutcome(k, f, n) == f[..if n < m then n else m]
  {
    hide Layout;
    if n > 0 { OutcomeFirst(k, f, m, n - 1); }
  }

  lemma CompactionRetried(key: string, r: SegmentCompactionResult, key': string, through': U64)
    requires ValidComponent(key)
    ensures DecodeCompaction(key', through', CompactionRecord(key, r))
         == if key == key' && r.compactedThrough == through' then Ok(r) else Err(IdempotencyConflict)
  {
    hide Encode, Decode, ValidComponent, StoredOutcome;
    var f := [Number(r.compactedThrough), Number(r.sourceSegments), Number(r.deletedSegmentKeys),
              Number(r.deletedTombstoneKeys), Number(r.inputEdges), Number(r.outputEdges), Word(key)];
    var q := [Number(through'), ANY, ANY, ANY, ANY, ANY, Word(key')];
    DecodeStored(SegmentCompaction, f, q);
    OutcomeFirst(SegmentCompaction, f, 6, |f|);
    assert Agrees(SegmentCompaction, f, q) <==> f[0] == q[0] && f[6] == q[6];
  }

  lemma CommitRetried(m: EdgeMutation, r: CommitResult, m': EdgeMutation)
    requires ValidMutation(m)
    ensures DecodeCommit(m', CommitRecord(m, r))
         == if m == m' then Ok(r) else Err(IdempotencyConflict)
  {
    hide Encode, Decode, ValidComponent, StoredOutcome;
    var f := [Number(r.epoch), Flag(r.alreadyExisted), Word(m.cell), Word(m.edgeType), Number(m.src), Number(m.dst)];
    var q := [ANY, ANY, Word(m'.cell), Word(m'.edgeType), Number(m'.src), Number(m'.dst)];
    DecodeStored(Commit, f, q);
    OutcomeFirst(Commit, f, 2, |f|);
    assert Agrees(Commit, f, q) <==> f[2] == q[2] && f[3] == q[3] && f[4] == q[4] && f[5] == q[5];
  }

  lemma DeleteRetried(m: EdgeMutation, r: DeleteResult, m': EdgeMutation)
    requires ValidMutation(m)
    ensures DecodeDelete(m', DeleteRecord(m, r))
         == if m == m' then Ok(r) else Err(IdempotencyConflict)
  {
    hide Encode, Decode, ValidComponent, StoredOutcome;
    var f := [Number(r.epoch), Flag(r.deleted), Word(m.cell), Word(m.edgeType), Number(m.src), Number(m.dst)];
    var q := [ANY, ANY, Word(m'.cell), Word(m'.edgeType), Number(m'.src), Number(m'.dst)];
    DecodeStored(Delete, f, q);
    OutcomeFirst(Delete, f, 2, |f|);
    assert Agrees(Delete, f, q) <==> f[2] == q[2] && f[3] == q[3] && f[4] == q[4] && f[5] == q[5];
  }

  lemma RelationshipDeleteRetried(m: EdgeMutation, id: U64, r: DeleteResult, m': EdgeMutation, id': U64)
    requires ValidMutation(m)
    ensures DecodeRelationshipDelete(m', id', RelationshipDeleteRecord(m, id, r))
         == if m == m' && id == id' then Ok(r) else Err(IdempotencyConflict)
  {
    hide Encode, Decode, ValidComponent, StoredOutcome;
    var f := [Number(r.epoch), Flag(r.deleted), Word(m.cell), Word(m.edgeType), Number(m.src), Number(m.dst),
              Number(id)];
    var q := [ANY, ANY, Word(m'.cell), Word(m'.edgeType), Number(m'.src), Number(m'.dst), Number(id')];
    DecodeStored(RelationshipDelete, f, q);
    OutcomeFirst(RelationshipDelete, f, 2, |f|);
    assert Agrees(RelationshipDelete, f, q) <==>
             f[2] == q[2] && f[3] == q[3] && f[4] == q[4] && f[5] == q[5] && f[6] == q[6];
  }

  lemma VertexDeleteRetried(cell: string, vertex: U64, r: VertexDeleteResult, cell': string, vertex': U64)
    requires ValidComponent(cell)
    ensures DecodeVertexDelete(cell', vertex', VertexDeleteRecord(cell, vertex, r))
         == if cell == cell' && vertex == vertex' then Ok(r) else Err(IdempotencyConflict)
  {
    hide Encode, Decode, ValidComponent, StoredOutcome;
    var f := [Number(r.epoch), Flag(r.vertexDeleted), Number(r.incidentEdgesDeleted), Number(r.relationshipsDeleted),
              Word(cell), Number(vertex)];
    var q := [ANY, ANY, ANY, ANY, Word(cell'), Number(vertex')];
    DecodeStored(VertexDelete, f, q);
    OutcomeFirst(VertexDelete, f, 4, |f|);
    assert Agrees(VertexDelete, f, q) <==> f[4] == q[4] && f[5] == q[5];
  }

  lemma CellDropRetried(cell: string, key: string, r: CellDropResult, cell': string, key': string)
    requires ValidComponent(cell) && ValidComponent(key)
    ensures DecodeCellDrop(cell', key', CellDropRecord(cell, key, r))
         == if cell == cell' && key == key' then Ok(r) else Err(IdempotencyConflict)
  {
    hide Encode, Decode, ValidComponent, StoredOutcome;
    var f := [Number(r.markerEpoch), Number(r.deletedKeys), Number(r.batches), Flag(r.alreadyDropped), Word(cell),
              Word(key)];
    var q := [ANY, ANY, ANY, ANY, Word(cell'), Word(key')];
    DecodeStored(CellDrop, f, q);
    OutcomeFirst(CellDrop, f, 4, |f|);
    assert Agrees(CellDrop, f, q) <==> f[4] == q[4] && f[5] == q[5];
  }

  lemma BulkImportRetried(key: string, fingerprint: U64, r: BulkImportResult, key': string, fingerprint': U64)
    requires ValidComponent(key)
    ensures DecodeBulkImport(key', fingerprint', BulkImportRecord(key, fingerprint, r))
         == if key == key' && fingerprint == fingerprint' then Ok(r) else Err(IdempotencyConflict)
  {
    hide Encode, Decode, ValidComponent, StoredOutcome;
    var f := [Number(r.startEpoch), Number(r.endEpoch), Number(r.inserted), Number(r.alreadyExisted),
              Number(fingerprint), Word(key)];
    var q := [ANY, ANY, ANY, ANY, Number(fingerprint'), Word(key')];
    DecodeStored(BulkImport, f, q);
    OutcomeFirst(BulkImport, f, 4, |f|);
    assert Agrees(BulkImport, f, q) <==> f[4] == q[4] && f[5] == q[5];
  }

  lemma RelationshipImportRetried(key: string, fingerprint: U64, r: RelationshipImportResult,
                                   key': string, fingerprint': U64)
    requires ValidComponent(key)
    ensures DecodeRelationshipImport(key', fingerprint', RelationshipImportRecord(key, fingerprint, r))
         == if key == key' && fingerprint == fingerprint' then Ok(r) else Err(IdempotencyConflict)
  {
    hide Encode, Decode, ValidComponent, StoredOutcome;
    var f := [Number(r.startEpoch), Number(r.endEpoch), Number(r.relationshipsInserted), Number(r.relationshipsExisted),
              Number(r.edgesInserted), Number(r.edgesExisted), Number(fingerprint), Word(key)];
    var q := [ANY, ANY, ANY, ANY, ANY, ANY, Number(fingerprint'), Word(key')];
    DecodeStored(RelationshipImport, f, q);
    OutcomeFirst(RelationshipImport, f, 6, |f|);
    assert Agrees(RelationshipImport, f, q) <==> f[6] == q[6] && f[7] == q[7];
  }

  lemma RelationshipCreateRetried(m: EdgeMutation, fingerprint: U64, r: RelationshipCreateResult,
                                   m': EdgeMutation, fingerprint': U64)
    requires ValidMutation(m)
    ensures DecodeRelationshipCreate(m', fingerprint', RelationshipCreateRecord(m, fingerprint, r))
         == if m == m' && fingerprint == fingerprint' then Ok(r) else Err(IdempotencyConflict)
  {
    hide Encode, Decode, ValidComponent, StoredOutcome;
    var f := [Number(r.epoch), Number(r.relationshipId), Flag(r.edgeInserted), Flag(r.alreadyCreated),
              Number(fingerprint), Word(m.cell), Word(m.edgeType), Number(m.src), Number(m.dst)];
    var q := [ANY, ANY, ANY, ANY, Number(fingerprint'), Word(m'.cell), Word(m'.edgeType), Number(m'.src),
              Number(m'.dst)];
    DecodeStored(RelationshipCreate, f, q);
    OutcomeFirst(RelationshipCreate, f, 4, |f|);
    assert Agrees(RelationshipCreate, f, q) <==>
             f[4] == q[4] && f[5] == q[5] && f[6] == q[6] && f[7] == q[7] && f[8] == q[8];
  }
}
