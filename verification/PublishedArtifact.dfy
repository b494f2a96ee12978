/** Builds that write real artifacts: what a reader finds once a manifest is
    published. */
module PublishedArtifact {
  import opened Basics
  import opened Binary
  import opened WriteBatch
  import opened CscImage
  import opened Chunking
  import opened CscArtifact
  import opened ArtifactLoad
  import opened ArtifactProtocol
  import opened ArtifactSafety
  import opened ArtifactCompleteness
  import opened Rows
  import opened ArtifactPipeline

  function Pair(op: WriteOp): (Key, Bytes)
    requires op.Put?
  {
    (op.key, op.value)
  }

  function Pairs(ops: seq<WriteOp>): (r: seq<(Key, Bytes)>)
    requires forall op :: op in ops ==> op.Put?
    ensures |r| == |ops|
  {
    seq(|ops|, i requires 0 <= i < |ops| => Pair(ops[i]))
  }

  lemma RecordsArePuts(at: ArtifactId, c: Csc)
    ensures forall op :: op in CscRecords(at, c) ==> op.Put?
  {
    hide ChunkKey;
    hide EncodeChunk;
    hide Chunks;
  }

  /** What the streaming build of image `c` writes. */
  function PlanOf(at: ArtifactId, c: Csc, manifest: Bytes): Plan
    requires ValidId(at) && FitsMachine(c)
  {
    RecordsArePuts(at, c);
    Plan(Pairs(CscRecords(at, c)), manifest, EncodeManifest(ManifestOf(at, c)))
  }

  /** The field and number behind the i-th record. */
  function Slot(c: Csc, i: nat): (r: (Field, nat))
    requires i < |Chunks(c.vertices)| + |Chunks(c.pointers)| + |Chunks(c.indices)|
  {
    var v, p := |Chunks(c.vertices)|, |Chunks(c.pointers)|;
    if i < v then (Vertices, i) else if i < v + p then (Pointers, i - v) else (Indices, i - v - p)
  }

  lemma SlotInjective(c: Csc, i: nat, j: nat)
    requires i < j < |Chunks(c.vertices)| + |Chunks(c.pointers)| + |Chunks(c.indices)|
    ensures Slot(c, i) != Slot(c, j)
  {
    hide Chunks;
  }

  lemma RecordAt(at: ArtifactId, c: Csc, i: nat)
    requires i < |Chunks(c.vertices)| + |Chunks(c.pointers)| + |Chunks(c.indices)|
    ensures |CscRecords(at, c)| == |Chunks(c.vertices)| + |Chunks(c.pointers)| + |Chunks(c.indices)|
    ensures Slot(c, i).1 < |Chunks(Values(c, Slot(c, i).0))|
    ensures CscRecords(at, c)[i]
         == ChunkRecord(at, Slot(c, i).0, Slot(c, i).1, Chunks(Values(c, Slot(c, i).0))[Slot(c, i).1])
  {
    hide Chunks;
    hide ChunkRecord;
  }

  lemma RecordKey(at: ArtifactId, c: Csc, i: nat)
    requires ValidId(at) && FitsMachine(c)
    requires i < |CscRecords(at, c)|
    ensures |CscRecords(at, c)| == |Chunks(c.vertices)| + |Chunks(c.pointers)| + |Chunks(c.indices)|
    ensures Slot(c, i).1 <= U64_MAX && PlanOf(at, c, []).records[i].0 == ChunkKey(at, Slot(c, i).0, Slot(c, i).1)
  {
    hide Chunks;
    hide ChunkKey;
    hide EncodeChunk;
    hide EncodeManifest;
    RecordsCount(at, c);
    CountsFit(c);
    RecordAt(at, c, i);
  }

  lemma RecordsCount(at: ArtifactId, c: Csc)
    ensures |CscRecords(at, c)| == |Chunks(c.vertices)| + |Chunks(c.pointers)| + |Chunks(c.indices)|
  {
    hide Chunks;
    hide ChunkRecord;
  }

  /** Real builds are valid plans: some record, distinct data keys. */
  lemma RealPlanValid(at: ArtifactId, c: Csc, manifest: Bytes)
    requires ValidId(at) && FitsMachine(c) && c.pointers != []
    ensures ValidPlan(at, PlanOf(at, c, manifest))
  {
    hide Slot;
    hide ChunkKey;
    hide CscKey;
    hide ManifestKey;
    hide MarkerKey;
    hide CscRecords;
    hide EncodeManifest;
    hide ManifestOf;
    var records := PlanOf(at, c, manifest).records;
    assert records == PlanOf(at, c, []).records;
    RecordsCount(at, c);
    CountsFit(c);
    assert |Chunks(c.pointers)| > 0;
    hide Chunks;
    forall i | 0 <= i < |records| ensures IsData(at, records[i].0) && records[i].0 != CscKey(at) {
      RecordKey(at, c, i);
      ChunkKeyIsData(at, Slot(c, i).0, Slot(c, i).1);
      ArtifactKeysDistinct(at, Slot(c, i).0, Slot(c, i).1, Slot(c, i).0, Slot(c, i).1);
    }
    forall i, j | 0 <= i < j < |records| ensures records[i].0 != records[j].0 {
      RecordKey(at, c, i);
      RecordKey(at, c, j);
      SlotInjective(c, i, j);
      ArtifactKeysDistinct(at, Slot(c, i).0, Slot(c, i).1, Slot(c, j).0, Slot(c, j).1);
    }
  }

  lemma StoredHoldsField(store: Store, at: ArtifactId, c: Csc, f: Field, start: nat)
    requires ValidId(at) && FitsMachine(c) && Stored(store, PlanOf(at, c, []).records)
    requires start + |Chunks(Values(c, f))| <= |CscRecords(at, c)|
    requires forall id :: 0 <= id < |Chunks(Values(c, f))| ==>
               CscRecords(at, c)[start + id] == ChunkRecord(at, f, id, Chunks(Values(c, f))[id])
    ensures ChunksStored(store, at, f, Chunks(Values(c, f)))
  {
    hide Chunks;
    hide ChunkKey;
    hide EncodeChunk;
    hide EncodeManifest;
    hide CscRecords;
    var chunks, records := Chunks(Values(c, f)), PlanOf(at, c, []).records;
    forall id | 0 <= id < |chunks|
      ensures ChunkKey(at, f, id) in store && store[ChunkKey(at, f, id)] == EncodeChunk(f, id, chunks[id])
    {
      var op := CscRecords(at, c)[start + id];
      assert op == Put(ChunkKey(at, f, id), EncodeChunk(f, id, chunks[id]));
      assert records[start + id] == Pair(op);
      assert records[start + id].0 in store;
    }
  }

  lemma StoredHolds(store: Store, at: ArtifactId, c: Csc)
    requires ValidId(at) && FitsMachine(c) && Stored(store, PlanOf(at, c, []).records)
    requires CscKey(at) in store && store[CscKey(at)] == EncodeManifest(ManifestOf(at, c))
    ensures HoldsArtifact(store, at, c)
  {
    hide Chunks;
    hide ChunkRecord;
    hide ChunksStored;
    hide EncodeManifest;
    hide ManifestOf;
    hide CscKey;
    hide Stored;
    hide PlanOf;
    var v, p := |Chunks(c.vertices)|, |Chunks(c.pointers)|;
    StoredHoldsField(store, at, c, Vertices, 0);
    StoredHoldsField(store, at, c, Pointers, v);
    StoredHoldsField(store, at, c, Indices, v + p);
  }

  /** In every serialised run of real builds, whenever a manifest is published
      the artifact reads back as the image its publisher built. */
  lemma PublishedIsReadable(w: World, images: map<nat, Csc>, states: seq<State>, steps: seq<Step>, i: nat)
    requires ValidWorld(w) && Serialised(w) && IsRun(w, states, steps) && i <= |steps|
    requires images.Keys == w.plans.Keys
    requires forall b :: b in images ==> FitsMachine(images[b]) && WellFormed(images[b])
    requires forall b :: b in images ==> w.plans[b] == PlanOf(w.at, images[b], w.plans[b].manifest)
    requires ManifestKey(w.at) in states[i].store
    ensures states[i].publisher.Some? && states[i].publisher.value in images
    ensures ReadArtifact(states[i].store, w.at) == Ok(Some(images[states[i].publisher.value]))
  {
    assert ValidId(w.at) && |states| == |steps| + 1;
    hide *;
    RunInv(w, states, steps, i);
    RunComplete(w, states, steps, i);
    PublisherOf(w, states[i]);
    var b := states[i].publisher.value;
    PlanParts(w.at, images[b], w.plans[b].manifest);
    StoredHolds(states[i].store, w.at, images[b]);
    StoredReads(states[i].store, w.at, images[b]);
  }

  lemma PublisherOf(w: World, s: State)
    requires Inv(w, s) && Complete(w, s) && ManifestKey(w.at) in s.store
    ensures s.publisher.Some? && s.publisher.value in w.plans && Stored(s.store, w.plans[s.publisher.value].records)
    ensures CscKey(w.at) in s.store && s.store[CscKey(w.at)] == w.plans[s.publisher.value].csc
  {
    hide ManifestKey;
    hide MarkerKey;
    hide CscKey;
  }

  lemma PlanParts(at: ArtifactId, c: Csc, manifest: Bytes)
    requires ValidId(at) && FitsMachine(c)
    ensures PlanOf(at, c, manifest).records == PlanOf(at, c, []).records
    ensures PlanOf(at, c, manifest).csc == EncodeManifest(ManifestOf(at, c))
  {
  }

  // Builds that push the same edges. Whether builds of one epoch do depends on
  // what they read and when; see `BuildProtocol`.

  /** Every builder of this world normalises rows of the same edges and writes
      their artifact. */
  ghost predicate BuildsEdges(w: World, rows: map<nat, RowMap>, edges: set<Edge>)
    requires ValidId(w.at)
  {
    && rows.Keys == w.plans.Keys && |edges| <= MAX_VEC
    && forall b :: b in rows ==> Normal(rows[b]) && Edges(rows[b]) == edges && WritesImage(w, b, rows[b])
  }

  ghost predicate WritesImage(w: World, b: nat, rows: RowMap)
    requires ValidId(w.at)
  {
    && b in w.plans && EdgeTotal(rows) <= U64_MAX && FitsMachine(CscOf(rows))
    && w.plans[b] == PlanOf(w.at, CscOf(rows), w.plans[b].manifest)
  }

  /** Whatever the order and multiplicity of the pushes, the builds then write the
      very same records. */
  lemma SameEdgesSameRecords(w: World, rows: map<nat, RowMap>, edges: set<Edge>, b: nat, d: nat)
    requires ValidWorld(w) && BuildsEdges(w, rows, edges) && b in w.plans && d in w.plans
    ensures w.plans[b].records == w.plans[d].records && Agree(w.plans[b].records, w.plans[d].records)
  {
    assert ValidId(w.at) && |edges| <= MAX_VEC;
    assert Normal(rows[b]) && Normal(rows[d]) && Edges(rows[b]) == edges && Edges(rows[d]) == edges;
    assert WritesImage(w, b, rows[b]) && WritesImage(w, d, rows[d]);
    assert ValidPlan(w.at, w.plans[b]);
    hide CscOf, Edges, Normal, PlanOf, EdgeTotal, FitsMachine;
    EdgesImage(edges, rows[b]);
    CscCanonical(rows[b], rows[d]);
    PlanParts(w.at, CscOf(rows[b]), w.plans[b].manifest);
    PlanParts(w.at, CscOf(rows[d]), w.plans[d].manifest);
    OwnRecordsAgree(w.at, w.plans[b]);
  }

  lemma OwnRecordsAgree(at: ArtifactId, p: Plan)
    requires ValidPlan(at, p)
    ensures Agree(p.records, p.records)
  {
    hide IsData, CscKey;
  }

  /** So sharing the guard is all that is left to ask for. */
  lemma SameEdgesSerialised(w: World, rows: map<nat, RowMap>, edges: set<Edge>)
    requires ValidWorld(w) && BuildsEdges(w, rows, edges)
    ensures Serialised(w) <==> GuardShared(w)
  {
    hide ValidWorld, BuildsEdges, Agree;
    forall b, d | b in w.plans && d in w.plans ensures Agree(w.plans[b].records, w.plans[d].records) {
      SameEdgesSameRecords(w, rows, edges, b, d);
    }
  }

  /** Builders that push the same edges and any number of cleaners under one guard:
      in every run, a published artifact reads back and decodes to exactly those
      edges. */
  lemma PublishedDecodes(w: World, rows: map<nat, RowMap>, edges: set<Edge>, states: seq<State>, steps: seq<Step>,
                         i: nat)
    requires ValidWorld(w) && BuildsEdges(w, rows, edges) && GuardShared(w)
    requires IsRun(w, states, steps) && i <= |steps| && ManifestKey(w.at) in states[i].store
    ensures ReadArtifact(states[i].store, w.at).Ok? && ReadArtifact(states[i].store, w.at).value.Some?
    ensures var c := ReadArtifact(states[i].store, w.at).value.value;
            WellFormed(c) && DecodedUpto(c, |c.vertices|) == AdjacencyOf(edges)
  {
    hide *;
    RunShape(w, states, steps);
    SameEdgesSerialised(w, rows, edges);
    var images := ImagesFor(w, rows, edges, w.plans.Keys);
    forall b | b in images
      ensures FitsMachine(images[b]) && WellFormed(images[b])
           && DecodedUpto(images[b], |images[b].vertices|) == AdjacencyOf(edges)
           && b in w.plans && w.plans[b] == PlanOf(w.at, images[b], w.plans[b].manifest)
    {
      ImageForMeans(w, edges, b, images[b]);
    }
    PublishedIsReadable(w, images, states, steps, i);
  }

  lemma RunShape(w: World, states: seq<State>, steps: seq<Step>)
    requires ValidWorld(w) && IsRun(w, states, steps)
    ensures ValidId(w.at) && |states| == |steps| + 1
  {
  }

  /** `c` is what builder `b` writes, and holds exactly these edges. */
  ghost predicate ImageFor(w: World, edges: set<Edge>, b: nat, c: Csc)
    requires ValidId(w.at)
  {
    && FitsMachine(c) && WellFormed(c) && DecodedUpto(c, |c.vertices|) == AdjacencyOf(edges)
    && b in w.plans && w.plans[b] == PlanOf(w.at, c, w.plans[b].manifest)
  }

  lemma ImageExists(w: World, rows: map<nat, RowMap>, edges: set<Edge>, b: nat) returns (c: Csc)
    requires ValidId(w.at) && BuildsEdges(w, rows, edges) && b in w.plans
    ensures ImageFor(w, edges, b, c)
  {
    assert WritesImage(w, b, rows[b]);
    hide PlanOf, CscOf, Edges, Normal, EdgeTotal, FitsMachine, WellFormed, DecodedUpto, AdjacencyOf;
    EdgesImage(edges, rows[b]);
    c := CscOf(rows[b]);
  }

  /** The image each of these builders writes. */
  lemma {:induction false} ImagesFor(w: World, rows: map<nat, RowMap>, edges: set<Edge>, some: set<nat>)
    returns (images: map<nat, Csc>)
    requires ValidId(w.at) && BuildsEdges(w, rows, edges) && some <= w.plans.Keys
    ensures images.Keys == some && forall b :: b in images ==> ImageFor(w, edges, b, images[b])
  {
    hide BuildsEdges, ImageFor;
    if some == {} {
      images := map[];
    } else {
      var b :| b in some;
      var c := ImageExists(w, rows, edges, b);
      var rest := ImagesFor(w, rows, edges, some - {b});
      images := rest[b := c];
    }
  }

  lemma ImageForMeans(w: World, edges: set<Edge>, b: nat, c: Csc)
    requires ValidId(w.at) && ImageFor(w, edges, b, c)
    ensures FitsMachine(c) && WellFormed(c) && DecodedUpto(c, |c.vertices|) == AdjacencyOf(edges)
    ensures b in w.plans && w.plans[b] == PlanOf(w.at, c, w.plans[b].manifest)
  {
    hide PlanOf, FitsMachine, WellFormed, DecodedUpto, AdjacencyOf;
  }
}
