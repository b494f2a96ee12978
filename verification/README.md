# The HydraDB storage and indexing kernel, in Dafny

This project models the kernel under `hydradb/src` and proves what its parts promise
each other. It follows the code: same branches, same error paths, same constants.
Where the code and its comments disagree, the model follows the code and the
disagreement is a lemma (see "What does not hold as written").

`dafny verify dfyconfig.toml` checks everything.

## How it is organised

| part | files |
|---|---|
| machine integers, ordered listings, separators, numerals, binary fields | `Basics`, `Text`, `Binary` |
| keys, values and records | `Keys`, `Locality`, `PropertyValues`, `Metadata`, `Idempotency`, `IdempotentResults`, `MatrixTile` |
| guarded batches and prefix scans | `WriteBatch`, `Scan` |
| reading adjacency out of the store | `Segments`, `Adjacency` |
| edges to rows to compressed image | `MatrixRows`, `Csc`, `CscBuild` |
| the stored artifact: chunks, checksum, manifest, streaming writer, loaders | `Artifact`, `ArtifactIo`, `ArtifactLoad`, `CompactRead` |
| publish and cleanup of artifacts as a protocol | `ArtifactProtocol`, `ArtifactSafety`, `ArtifactCompleteness`, `PublishedArtifact` |
| whole builds against a topology that goes on changing | `LiveTopology`, `BuildProtocol`, `BuildSafety`, `BuildExactness`, `BuildFailures` |
| traversal: walks, breadth-first search, the compact kernel, the overlay walk | `Reachability`, `CompactKernel`, `OverlayWalk` |
| incremental index generations from the edge changelog | `Changelog`, `ChangelogScan`, `ChangelogProtocol` |
| the indexer's schedule, its cycle and the shared cursor | `FairSchedule`, `IndexerCycle`, `CursorProtocol`, `CursorSafety` |
| the indexer's cache of open readers | `ScopeCache`, `ScopeCacheRuns`, `ScopeCacheSafety`, `ScopeCacheResults`, `ScopeCacheKeeping` |
| the bounded cache | `BoundedCache`, `CacheEviction`, `BoundedCacheClass`, `CacheRuns` |
| scope names and paths | `ScopePaths` |

Objects that the code updates in place are classes (`MatrixRows`, `ArtifactWriter`,
`IndexStream`, `Reader`, `GraphWriteBatch`, `IndexerScopeCache`, `RegisteredScopeSchedule`,
`CursorObject`, `BoundedGraphCache`),
array algorithms keep their arrays, loops keep their loops. Concurrent code is a
state machine whose steps are the atomic sections of the code; results about it hold
for every run, whatever the interleaving.

## What the main results say

* **Index artifact.** For every sequence of pushed edges, the stored artifact reads
  back as an image that passes validation, has one index per distinct edge and decodes
  to exactly the pushed edges; the streaming writer emits the records, lengths and
  checksum of the materialising one; the 32-bit reader agrees with the 64-bit one
  exactly when the values fit. Building, storing, reading and traversing answers
  exactly what the pushed edges connect, through either reader (`BuildAndExpand`,
  `BuildAndExpandCompact`).
* **Publish and cleanup.** Manifest and cleanup marker never coexist, at most one
  cleaner can delete, nothing is deleted after publication, a lost claim never deletes
  again. Published manifests are complete in every run if and only if builders and
  cleaners share one guard and builds of one epoch agree (`CompleteExactly`); builds
  of the same edges do agree (`SameEdgesSerialised`).
* **Builds while the graph changes.** Streamed builds scan live records three times,
  others read a snapshot; commits, compactions and other writes come in between. Within
  one process each publication is exact when it is made, torn scans included, in every
  history, if and only if the index is available at no later epoch (`PublishedExactly`).
  It stays exact if and only if, besides, cleaners share the guard and no two builds of
  the epoch can be under way together (`AlwaysExactly`); one build permit is enough.
* **Cursor.** With any number of indexers, races, failed puts and crashes, each cursor
  write continues the one before it and every scope it passes was run by the writer
  since it saw that value; with versions that are never reused, any stretch of writes
  that passes as many scopes as there are has run every scope.
* **Fairness.** Cycles visit every scope once per lap if and only if the name search
  finds every scope but the last; strictly sorted names suffice.
* **Reader cache.** Every reader ever opened is in exactly one place, the bound holds,
  idle entries are hot, eviction closes nothing that is held, an open is never refused
  when tasks do not outnumber slots. A built scope stays cached and hot until a step
  takes it out (`BuiltStaysHot`); evictions take the longest unused. A batch never uses a closed reader if and only if
  no two of its tasks share a scope, and a planned cycle never puts a scope twice.
* **Bounded cache.** The eviction loops compute a closed-form set of survivors without
  ever giving up; counters are exact; limits hold; evictions follow the eviction order
  in every tenant, which among alike entries is the order of their last uses
  (`StampsOrderUses`); look-ups return the last value inserted.
* **Segment scan.** With its early `break` it returns exactly the visible destinations
  with their largest visible sequence, and point look-ups agree with neighbour sets.
* **Incremental index.** The changelog scan resolves to the last state of each edge,
  patching reproduces the full build's image, and over every run of commits, builders,
  failures, collections, repairs and purges each published generation is the one a full
  rebuild gives, if and only if logging is not enabled exactly one effective commit
  after the generation found.

## What does not hold as written

* A full lap from a registered scope other than the last visits everything, reports no
  sweep and repeats for ever, so the registry is not listed again (`SweepExact`,
  `StuckForever`).
* Scopes are sorted by component and searched by name. The orders differ (`a` and
  `a-b`, or a namespace and its child), and then the end of the registry can starve
  (`RegistryStarves`, `NestingDisagrees`; the exact condition is `FairExactly`, a
  sufficient one on the scopes is `PlainRegistryIsFair`).
* An artifact guard that is not shared, or a rebuild with other rows, breaks published
  artifacts (`UnguardedCleanerBreaks`, `DisagreeingRebuildBreaks`).
* With a second build permit a rebuild with other rows does arise: two builds pass the
  start check, the first publishes, an edge is committed, and the second overwrites the
  published records before its generation check refuses it (`TwoBuildsBreak`; the exact
  condition is `AlwaysExactly`).
* Compaction stamps its segment with a later indexed epoch and does not move the
  topology generation. A build at an earlier epoch then skips that segment, passes every
  check and publishes an artifact without its edges (`LaterCompactionBreaks`; the exact
  condition is `PublishedExactly`).
* A non-negative signed property reads back as an unsigned one
  (`ValueUnchangedExactly`, `CanonicalExactly`).
* The overlay traversal loses walks that re-enter the frontier by unchanged edges
  (`LosesWalks`). It answers the walks in every range if and only if nothing re-enters
  (`OverlayExactly`), and in one range if and only if what the lost vertices lead to is
  led to from the others (`RangeExactly`); with a lower bound of one hop it misses at
  most starts (`FromFirstHop`).
* Repairing the changelog floor at the current sequence claims that commit, which may
  never have been logged (`EarlyRepairBreaks`). `RepairExactly` and `EnablementExactly`
  say exactly when this publishes a wrong generation.

## Assumptions

* Texts stored by this code are ASCII; bytes are numbers below 256.
* A vector of edges has at most 2^59 - 1 entries, so lengths and counters fit 64 bits;
  the cache's clock and byte sums stay below the machine maximum.
* A guarded batch is atomic: all guards are read, then all operations apply in order.
  A prefix scan is a snapshot in key order. Every committed batch takes the next
  sequence. Topology writes hold the local write guard, so the generation check and
  the publication it protects are one step. A conditional put is atomic; one version
  never stands for two texts.
* Fingerprints are opaque numbers.

## Model

| member | source | states |
|---|---|---|
| `Keys.FormatInjective` | hydradb/src/keys.rs:35-173 | distinct edge, segment, tombstone, relationship and changelog keys never collide, across families too |
| `Keys.KeyOrder` | hydradb/src/keys.rs:35-129 | within a family, cell and type, byte order of keys is the order of their numeric tuples, then of the segment id |
| `Keys.ScanPrefixExact` | hydradb/src/keys.rs:88-129 | a source prefix matches exactly the keys of that family, cell, type and source |
| `Keys.CellPrefixExact` | hydradb/src/keys.rs:3-5 | a cell prefix matches exactly that cell's keys |
| `Keys.ParsersInvert` | hydradb/src/codec.rs:1371-1499 | each key parser inverts its own builders and refuses every other family |
| `Keys.EdgeKeysExactly` | hydradb/src/codec.rs:1371-1400 | of any key the edge parser accepts exactly the three shapes with valid components and numbers |
| `Keys.SegmentKeysExactly` | hydradb/src/codec.rs:1456-1478 | of any key the segment parser accepts exactly its shape, with a valid segment id |
| `Keys.TombstoneKeysExactly` | hydradb/src/codec.rs:1479-1499 | of any key the tombstone parser accepts exactly its shape |
| `Keys.RelationshipKeysExactly` | hydradb/src/codec.rs:1402-1424 | of any key the relationship parser accepts exactly its shape |
| `Numerals.Pad20Order` | hydradb/src/keys.rs:35-47 | zero-padded decimals order as numbers |
| `Numerals.ParseExactly` | hydradb/src/codec.rs:1508-1520 | parsed as a number are exactly the texts that spell it, behind any zeros and at most one plus sign |
| `Locality.CellIdExact` | hydradb/src/locality.rs:81-98 | the extractor answers exactly the keys `cell/<id>/...`, with that id |
| `Locality.CellIdStable` | hydradb/src/locality.rs:41-50 | every extension of a key's cell prefix has the same cell and prefix length |
| `Locality.GraphKeyCell` | hydradb/src/locality.rs:94-98 | every graph key belongs to its own cell |
| `Locality.CompareLayouts` | hydradb/src/locality.rs:53-79 | every key is counted once, under its cell or among the unsegmentable ones in order |
| `WriteBatch.GraphWriteBatch.Put` | hydradb/src/core/write_batch.rs:41-50 | appends one put to the batch |
| `WriteBatch.GraphWriteBatch.Delete` | hydradb/src/core/write_batch.rs:52-58 | appends one delete to the batch |
| `WriteBatch.CommitGuarded` | hydradb/src/shard/maintenance.rs:332-447 | a conflict names a failing guard before which every guard holds, and nothing changes; otherwise all operations apply in order |
| `Scan.ScanRecords` | hydradb/src/codec.rs:18-26 | lists exactly the records under a prefix by ascending key |
| `Segments.SegmentRoundTrip` | hydradb/src/codec.rs:644-652 | a segment record decodes to its destinations |
| `Segments.SegmentScan` | hydradb/src/codec.rs:94-101 | on a well-formed store a source scan lists segments of that source with ascending sequences |
| `Segments.LaterWritesUnseen` | hydradb/src/codec.rs:77-104 | what a reader at an epoch sees of the segments is not touched by segments and tombstones of later epochs |
| `Segments.BreakLosesNothing` | hydradb/src/codec.rs:102-104 | stopping at the first sequence above the epoch loses no visible entry |
| `Segments.Raise` | hydradb/src/codec.rs:105-113 | one segment raises exactly the sequences of its visible destinations |
| `Segments.ScanSegments` | hydradb/src/codec.rs:94-117 | the loop with its break computes the best visible sequence over all records |
| `Segments.ScanTombstones` | hydradb/src/codec.rs:77-93 | collects exactly the tombstones at or below the epoch, refusing a foreign identity |
| `Adjacency.OutSegmentEdges` | hydradb/src/codec.rs:69-119 | maps each destination to the largest segment sequence at or below the epoch above its tombstone, and nothing else |
| `Adjacency.OutNeighbors` | hydradb/src/codec.rs:10-33 | the neighbour set is exactly the destinations with a single record or a visible segment entry |
| `Adjacency.EdgeEpochAt` | hydradb/src/codec.rs:35-53 | answers Some exactly for neighbours: the read epoch for a single record, else the largest visible sequence |
| `PropertyValues.HexEncodeLoop` | hydradb/src/codec.rs:589-597 | the loop writes two digits for every byte, high nibble first |
| `PropertyValues.HexRoundTrip` | hydradb/src/codec.rs:589-618 | hex decoding undoes hex encoding |
| `PropertyValues.HexExactly` | hydradb/src/codec.rs:599-627 | decoded are exactly the digits of the bytes, in either case |
| `PropertyValues.IndexKeyOrder` | hydradb/src/codec.rs:504-515 | within each type byte order of index keys is value order |
| `PropertyValues.IndexKeyInjective` | hydradb/src/codec.rs:504-515 | index keys tell all values apart, across types |
| `PropertyValues.FloatKeyIsNumeric` | hydradb/src/codec.rs:580-587 | on finite floats the key order is numeric order with -0 just before +0 |
| `PropertyValues.SpecialsOutside` | hydradb/src/codec.rs:580-587 | infinities and NaNs lie outside the finite floats on the side of their sign |
| `Metadata.ValueRoundTrip` | hydradb/src/codec.rs:517-578 | a value record decodes to the value, up to the sign type of non-negative numbers |
| `PropertyValues.Utf8Exactly` | hydradb/src/codec.rs:564-571 | accepted bytes are exactly the UTF-8 forms of sequences of Unicode scalar values |
| `Metadata.TextRoundTrip` | hydradb/src/codec.rs:517-578 | the text of every sequence of characters comes back, and any other bytes are refused |
| `Metadata.ValueUnchangedExactly` | hydradb/src/codec.rs:548-554 | unchanged exactly when it is not a non-negative signed integer |
| `Metadata.DecodeBody` | hydradb/src/codec.rs:374-397 | the decoding loop, stopping at the first bad line |
| `Metadata.LinesExactly` | hydradb/src/codec.rs:374-397 | of any lines exactly those are accepted that each name a label or give a property; the last value given for a name stands |
| `Metadata.EncodeVertexMetadata` | hydradb/src/codec.rs:333-397 | for every label set and property map, decoding what is written gives back the canonical metadata |
| `Metadata.EncodeEdgeMetadata` | hydradb/src/codec.rs:399-409 | the same for edge metadata |
| `Metadata.EncodeRelationship` | hydradb/src/codec.rs:411-459 | identity comes back from the key, properties from the value |
| `Metadata.CanonicalExactly` | hydradb/src/core/model.rs:150-155 | metadata is canonical exactly when it holds no non-negative signed integer |
| `Idempotency.DecodeStored` | hydradb/src/codec.rs:770-1190 | for each of the nine kinds: the stored result exactly when identity and fingerprint agree, a conflict otherwise |
| `Idempotency.DecodeExactly` | hydradb/src/codec.rs:671-1190 | of any text exactly the records of the kind's tag and shape are accepted whose fields denote values, with the request's identity |
| `IdempotentResults.CompactionRetried` | hydradb/src/codec.rs:654-711 | a compaction retried with its key and epoch gets exactly the stored result, any other a conflict |
| `IdempotentResults.CommitRetried` | hydradb/src/codec.rs:1155-1200 | an edge commit retried for the same edge gets its result, for another a conflict |
| `IdempotentResults.DeleteRetried` | hydradb/src/codec.rs:1031-1053 | the same for an edge delete |
| `IdempotentResults.RelationshipDeleteRetried` | hydradb/src/codec.rs:1055-1088 | the same for a relationship delete, by edge and relationship |
| `IdempotentResults.VertexDeleteRetried` | hydradb/src/codec.rs:1090-1121 | the same for a vertex delete, by cell and vertex |
| `IdempotentResults.CellDropRetried` | hydradb/src/codec.rs:1123-1153 | the same for a cell drop, by cell and key |
| `IdempotentResults.BulkImportRetried` | hydradb/src/codec.rs:904-941 | a bulk import retried with its key and payload fingerprint gets its four numbers, with another fingerprint a conflict |
| `IdempotentResults.RelationshipImportRetried` | hydradb/src/codec.rs:943-992 | the same for a relationship import and its six numbers |
| `IdempotentResults.RelationshipCreateRetried` | hydradb/src/codec.rs:994-1029 | the same for a relationship create, by edge and fingerprint |
| `Idempotency.KindsDoNotMix` | hydradb/src/codec.rs:654-711 | no kind's decoder accepts another kind's record |
| `MatrixTiles.TileRoundTrip` | hydradb/src/engine.rs:1692-1759 | every tile survives its record, whatever rows it holds |
| `Rows.MatrixRows.Push` | hydradb/src/engine.rs:197-200 | appends the destination to its source's row |
| `Rows.MatrixRows.Normalize` | hydradb/src/engine.rs:202-211 | rows become normal with the same edges; the live count is the number of distinct edges |
| `Rows.PushAllEdges` | hydradb/src/engine.rs:196-200 | the rows hold exactly the pushed edges |
| `Rows.NormalUnique` | hydradb/src/engine.rs:202-211 | normal rows are determined by their edge set |
| `CscBuild.RowsVertices` | hydradb/src/engine.rs:260-269 | the dictionary is the ascending listing of all endpoints |
| `CscBuild.RowsPointers` | hydradb/src/engine.rs:271-286 | pointers are the prefix sums of the degrees |
| `CscBuild.RowsIndices` | hydradb/src/engine.rs:288-317 | indices are the ordinals of the destinations, row after row; a missing destination is an error |
| `CscBuild.RowsToCsc` | hydradb/src/engine.rs:249-258 | builds the image of the rows over their own dictionary |
| `CscBuild.AdjacencyToCsc` | hydradb/src/sparse_kernel/mod.rs:272-301 | counting, prefix sums and scattering in arrays give the same image as the row builder |
| `CscImage.BinarySearchExact` | hydradb/src/engine.rs:304-313 | the search finds exactly the dictionary's members at their only position |
| `CscImage.ValidateExact` | hydradb/src/engine.rs:1620-1649 | validation accepts exactly the well-formed images |
| `CscImage.ToAdjacency` | hydradb/src/sparse_kernel/mod.rs:95-145 | a well-formed image decodes to its adjacency |
| `CscImage.CscFaithful` | hydradb/src/engine.rs:249-317 | the image of normal rows validates, has one index per distinct edge and decodes to exactly those edges |
| `CscImage.CscCanonical` | hydradb/src/engine.rs:249-317 | the image depends only on the edge set |
| `Chunking.ChunksFaithful` | hydradb/src/engine.rs:1443-1470 | chunks are bounded, as many as the manifest expects, and concatenate to the values |
| `CscArtifact.ArtifactKeysDistinct` | hydradb/src/engine.rs:712-742 | chunk and artifact keys are distinct per field and number |
| `CscArtifact.ChunkRoundTrip` | hydradb/src/engine.rs:1567-1596 | a chunk record decodes to its values |
| `CscArtifact.ChunkExactly` | hydradb/src/engine.rs:1576-1596 | behind the magic exactly the chunk's own layout under its field and number is accepted |
| `CscArtifact.DecodeChunkAt` | hydradb/src/engine.rs:1576-1596 | the cursor-based decoder, with all its refusals |
| `CscArtifact.DecodeChunkU32At` | hydradb/src/engine.rs:1598-1618 | succeeds exactly when the 64-bit decoder does and all values fit, with the same values |
| `CscArtifact.ManifestRoundTrip` | hydradb/src/engine.rs:1472-1522 | the manifest text decodes to the manifest, checks included |
| `Binary.Reader.TakeBytes` | hydradb/src/engine.rs:1777-1789 | reads a length-prefixed field or fails in place |
| `Binary.Reader.TakeU64s` | hydradb/src/engine.rs:1791-1813 | reads a counted array or fails |
| `ArtifactIo.ArtifactWriter.PutRecord` | hydradb/src/engine.rs:771-795 | the record is written now or pending; nothing is lost or reordered |
| `ArtifactIo.ArtifactWriter.FlushPending` | hydradb/src/engine.rs:797-820 | everything put so far is in the store |
| `ArtifactIo.AppendField` | hydradb/src/engine.rs:1443-1470 | emits the field's chunk records and returns their number |
| `ArtifactIo.AppendCsc` | hydradb/src/engine.rs:1267-1327 | emits the records of the image and returns its manifest |
| `ArtifactIo.IndexStream.Push` | hydradb/src/engine.rs:1371-1405 | buffers, emits and folds one streamed index |
| `ArtifactIo.AppendRows` | hydradb/src/engine.rs:1329-1441 | the streaming writer emits the same records, counts, lengths and checksum as building the image first |
| `ArtifactLoad.LoadChunks` | hydradb/src/engine/matrix_cache.rs:293-320 | loads and concatenates the chunks, or fails on a missing, bad or miscounted one |
| `ArtifactLoad.LoadChunksU32` | hydradb/src/engine/matrix_cache.rs:322-350 | agrees with the 64-bit loader exactly when all values fit |
| `ArtifactLoad.ReadIsWellFormed` | hydradb/src/engine/matrix_cache.rs:224-290 | whatever the store holds, an image that is read passed validation |
| `ArtifactLoad.StoredReads` | hydradb/src/engine/matrix_cache.rs:224-290 | a store holding an artifact's records reads back as its image |
| `ArtifactLoad.WrittenReads` | hydradb/src/engine.rs:1267-1327 | a written artifact reads back, whatever the store held |
| `ArtifactLoad.DamageIsRefused` | hydradb/src/engine.rs:1651-1690 | an artifact with one damaged byte in one stored value is never read |
| `ArtifactLoad.ForeignIsRefused` | hydradb/src/engine/matrix_cache.rs:224-290 | a manifest of another cell, type or epoch is refused |
| `ArtifactLoad.LegacyReads` | hydradb/src/engine.rs:1532-1565 | a record in the older layout reads back as its image, and as nothing under another identity |
| `ArtifactLoad.LegacyExactly` | hydradb/src/engine.rs:1532-1565 | behind the magic nothing but that layout of a well-formed image is accepted |
| `ArtifactPipeline.BuildArtifact` | hydradb/src/engine/artifact_build.rs:242-420 | push, normalise, stream, publish: the artifact read back decodes to exactly the pushed edges |
| `CompactRead.CompactChecksum` | hydradb/src/engine.rs:1668-1683 | the 32-bit fold equals the 64-bit checksum of the widened arrays |
| `CompactRead.ReadCompact` | hydradb/src/engine/matrix_cache.rs:157-222 | nothing exactly for absent and older records; else the manifest- and checksum-checked image exactly when pointers and indices fit, well formed or not |
| `CompactRead.ValidatedRead` | hydradb/src/engine/matrix_cache.rs:224-290 | the 64-bit reader is that image exactly when it is well formed |
| `CompactRead.BuildAndExpand` | hydradb/src/engine/artifact_build.rs:242-420 | building, reading back and traversing answers exactly what the pushed edges connect |
| `CompactRead.BuildAndExpandCompact` | hydradb/src/engine/matrix_cache.rs:157-222 | the same through the 32-bit reader, which answers if and only if the edges fit in 32 bits and so does every destination's place among the endpoints |
| `ArtifactProtocol.ArbitersDiffer` | hydradb/src/engine.rs:618-628 | manifest and marker keys differ |
| `ArtifactProtocol.ScannedKeysAreData` | hydradb/src/engine.rs:712-742 | the keys a cleaner scans are never the manifest or the marker |
| `ArtifactProtocol.DropMarker` | hydradb/src/engine.rs:630-652 | removes the marker seen, or conflicts |
| `ArtifactProtocol.WriteManifest` | hydradb/src/engine.rs:654-668 | publishes both records unless a marker stands |
| `ArtifactProtocol.WriteClaim` | hydradb/src/engine.rs:925-952 | writes the token unless a manifest exists |
| `ArtifactProtocol.WriteDeletes` | hydradb/src/engine.rs:1141-1165 | deletes exactly while no manifest exists and the marker holds this token; a refusal names the manifest if it exists and the marker otherwise |
| `ArtifactSafety.ManifestExcludesMarker` | hydradb/src/engine.rs:654-668 | in every run manifest and marker never coexist, and a manifest has a known publisher |
| `ArtifactSafety.AtMostOneDeleter` | hydradb/src/engine.rs:1141-1165 | at most one token can delete at any moment |
| `ArtifactSafety.NothingDeletedAfterPublish` | hydradb/src/engine.rs:1141-1190 | once published, builders and cleaners remove no key and no delete takes effect |
| `ArtifactSafety.LostClaimNeverDeletes` | hydradb/src/engine.rs:1091-1112 | a cleaner whose marker was replaced or removed never deletes under that claim again |
| `ArtifactCompleteness.CompleteExactly` | hydradb/src/engine.rs:771-899 | published manifests are complete in every run if and only if guards are shared and builds agree |
| `ArtifactCompleteness.BuildAlwaysPublishes` | hydradb/src/engine.rs:630-652 | whatever records and marker earlier runs left behind, a build that finds its guard free and is left alone publishes with all its records stored |
| `ArtifactCompleteness.UnguardedCleanerBreaks` | hydradb/src/engine.rs:855-899 | a cleaner outside the builder's guard breaks some run |
| `ArtifactCompleteness.DisagreeingRebuildBreaks` | hydradb/src/engine/artifact_build.rs:242-420 | rebuilding a published epoch with other records breaks some run |
| `PublishedArtifact.RealPlanValid` | hydradb/src/engine.rs:712-742 | what a real build writes are distinct data keys, never the manifest or the marker |
| `PublishedArtifact.PublishedIsReadable` | hydradb/src/engine/artifact_build.rs:242-420 | in every serialised run of real builds a published artifact reads back as its publisher's image |
| `PublishedArtifact.SameEdgesSerialised` | hydradb/src/engine/artifact_build.rs:242-420 | builders that push the same edges write the same records, so runs are serialised if and only if the guard is shared |
| `PublishedArtifact.PublishedDecodes` | hydradb/src/engine/artifact_build.rs:242-420 | builders that push the same edges and cleaners under one guard: a published artifact decodes to exactly those edges in every run |
| `LiveTopology.CompactedVisible` | hydradb/src/shard/maintenance.rs:152-230 | compacting a source changes nothing for readers at its epoch and after |
| `LiveTopology.TornVisible` | hydradb/src/engine/artifact_build.rs:487-510 | tombstones and segments scanned at different moments, with compactions in between, show what one look shows |
| `LiveTopology.MutatedVisible` | hydradb/src/shard/write.rs:3595-3620 | after a transaction an edge is there exactly if it was put or appended, or was there and neither dropped nor buried |
| `BuildExactness.PublicationExact` | hydradb/src/engine/artifact_build.rs:300-338 | a publication that passes the generation check, or comes from a snapshot, reads back as exactly the epoch's edges |
| `BuildExactness.HarmlessHistory` | hydradb/src/engine/artifact_build.rs:231-358 | a published artifact stays exact as long as nobody puts records of other edges over it |
| `BuildExactness.HistoryAlone` | hydradb/src/shard/lifecycle.rs:177-179 | when no two builds can be under way together, nobody does: the first build's own writes move the sequence past the epoch |
| `BuildFailures.PublishedExactly` | hydradb/src/engine/artifact_build.rs:17-358 | within one process every publication is exact when made, in every history, if and only if nobody builds or no later epoch is indexed |
| `BuildFailures.AlwaysExactly` | hydradb/src/engine/artifact_build.rs:17-358 | published artifacts are exact throughout every history if and only if nobody builds, or no later epoch is indexed, cleaners share the guard and no two builds can be under way together |
| `BuildFailures.TwoBuildsBreak` | hydradb/src/engine/artifact_build.rs:40-50 | any two builds that can be under way together have a history that overwrites a published artifact |
| `BuildFailures.LaterCompactionBreaks` | hydradb/src/shard/maintenance.rs:126-230 | any later indexed epoch has a history in which a build publishes an artifact without the compacted edges |
| `BuildFailures.UnguardedBuildBreaks` | hydradb/src/shard/lifecycle.rs:288-305 | a cleaner of another process has a history that leaves a published artifact unreadable |
| `Reachability.LevelIsWalks` | hydradb/src/engine.rs:574-591 | stepping set by set follows exactly the walks of that length |
| `Reachability.NaiveReachable` | hydradb/src/engine.rs:574-591 | ascending, exactly the ends of walks of one to `hops` edges |
| `Reachability.BreakLosesNothing` | hydradb/src/engine.rs:585-589 | stopping at an empty frontier loses nothing |
| `Reachability.EnoughHops` | hydradb/src/engine.rs:574-591 | hops beyond the number of destinations add nothing |
| `Reachability.Expand` | hydradb/src/sparse_kernel/mod.rs:405-435 | search with a seen set finds exactly the reachable vertices other than the starts |
| `CompactKernel.StepNamed` | hydradb/src/sparse_kernel/graphblas.rs:259-288 | a step over ordinals is a step over vertices |
| `CompactKernel.Expand` | hydradb/src/sparse_kernel/graphblas.rs:361-417 | flag arrays and depth markers find exactly the reachable vertices other than the starts |
| `CompactKernel.ExpandRange` | hydradb/src/sparse_kernel/graphblas.rs:419-540 | exactly the dictionary vertices some walk of the given lengths ends in |
| `OverlayWalk.ContainsEdgeExact` | hydradb/src/sparse_kernel/graphblas.rs:290-296 | the edge test answers exactly the decoded edges |
| `OverlayWalk.HopWithOverlay` | hydradb/src/shard/topology_tail.rs:466-494 | one hop: the patched graph's step without frontier vertices reached only by unchanged edges |
| `OverlayWalk.OverlayExactly` | hydradb/src/shard/topology_tail.rs:450-508 | the traversal answers the patched graph's walks, for every range of one to `hi` hops, if and only if no walk of below `hi` edges re-enters its end except by an added edge |
| `OverlayWalk.FromFirstHop` | hydradb/src/shard/topology_tail.rs:450-508 | with a lower bound of at most one hop the answer is, for every vertex and starts included, the first hop and what walks lead to from it |
| `OverlayWalk.FromOneExactly` | hydradb/src/shard/topology_tail.rs:450-508 | with such a bound it answers the walks if and only if every start that a walk comes back to is in the first hop or led to from it |
| `OverlayWalk.FromAnyHop` | hydradb/src/shard/topology_tail.rs:450-508 | in any range the answer is exactly what walks lead to from the hop at the lower bound |
| `OverlayWalk.RangeExactly` | hydradb/src/shard/topology_tail.rs:450-508 | one range is answered exactly if and only if walks lead from that hop to whatever they lead to from the vertices it has lost, so if nothing re-enters below the lower bound |
| `OverlayWalk.ExpandRangeWithOverlay` | hydradb/src/shard/topology_tail.rs:450-508 | invents nothing; in every range is what walks lead to from the hop at the lower bound, exact when nothing re-enters below it; from one hop up at most starts are missing |
| `OverlayWalk.LosesWalks` | hydradb/src/shard/topology_tail.rs:466-470 | a well-formed image and an empty overlay on which a walk of two edges is lost |
| `Changelog.ResolvedIsDelta` | hydradb/src/shard/xlog.rs:1-16 | applying the retained final states to the earlier edges gives the later edges |
| `Changelog.Patch` | hydradb/src/engine/index_store.rs:298-315 | the overlay loop gives the adjacency of the changed edges, without empty sources |
| `Changelog.IncrementalImage` | hydradb/src/engine/index_store.rs:200-345 | the incremental build encodes the very image of the full build |
| `ChangelogScan.XlogKeyShape` | hydradb/src/shard/xlog.rs:43-68 | the entry parser inverts the changelog key builder behind its prefix |
| `ChangelogScan.RangeExact` | hydradb/src/shard/xlog.rs:110-122 | the string bounds select exactly the sequences between |
| `ChangelogScan.OverwrittenResolves` | hydradb/src/shard/xlog.rs:123-132 | overwriting in key order is last-in-sequence-wins |
| `ChangelogScan.ReadDelta` | hydradb/src/shard/xlog.rs:88-134 | on a store holding the retained log, exactly the resolved changes |
| `ChangelogProtocol.EnablementExactly` | hydradb/src/engine/index_store.rs:200-345 | from first enablement every run publishes only what full rebuilds give, if and only if the generation found is not exactly one effective commit behind |
| `ChangelogProtocol.RepairExactly` | hydradb/src/shard/xlog.rs:168-198 | repairing the floor keeps every later publication exact if and only if no generation one commit behind is published or in the making, or the kept entries account for that commit |
| `ChangelogProtocol.HazardIs` | hydradb/src/shard/xlog.rs:168-198 | what the collector can look up decides whether a repair is safe |
| `ChangelogProtocol.PublishedIsExact` | hydradb/src/engine/index_store.rs:200-345 | without that hazard at the start, each generation published in any run is what a full rebuild at its base gives |
| `ChangelogProtocol.EarlyRepairBreaks` | hydradb/src/shard/xlog.rs:168-198 | the failing input: one edge committed before logging began and a generation without it |
| `ChangelogProtocol.NeverFallsBack` | hydradb/src/shard/xlog.rs:96-108 | without a purge the coverage test of every later build succeeds |
| `ChangelogProtocol.OneBootstrapSuffices` | hydradb/src/shard/xlog.rs:168-198 | once a floor exists and one full build pinned after it has finished, every build pinned later is covered until a purge, whatever older builds still do |
| `ChangelogProtocol.LoggingSetsFloor` | hydradb/src/shard/write.rs:5874-5900 | the first commit that logs anything sets the floor, which then stays until a purge |
| `ChangelogProtocol.CollectionFrees` | hydradb/src/shard/xlog.rs:158-260 | an uncut collection leaves no entry up to its bound, touches no other, and the floor then starts the entries kept |
| `ScopeRegistry.BinarySearch` | hydradb/src/bin/graph-indexer.rs:1122-1127 | the halving search over names, with its result on any list |
| `ScopeRegistry.SearchSorted` | hydradb/src/bin/graph-indexer.rs:1122-1127 | over strictly sorted names it finds every registered name |
| `FairSchedule.CollectSlice` | hydradb/src/bin/graph-indexer.rs:1144-1153 | the slice is the next scopes in cyclic order, at most a lap |
| `FairSchedule.PlanCycle` | hydradb/src/bin/graph-indexer.rs:1132-1156 | the slice is non-empty; the rechecks are the other hot scopes in order; nothing is planned twice, within the budget |
| `FairSchedule.EveryScopeOnce` | hydradb/src/bin/graph-indexer.rs:1122-1155 | any `n` consecutive fair visits reach every scope exactly once, however budgets vary |
| `FairSchedule.FairExactly` | hydradb/src/bin/graph-indexer.rs:1122-1155 | cycles are fair if and only if the search finds every scope but the last |
| `FairSchedule.ScopeOrderStarves` | hydradb/src/bin/graph-indexer.rs:1077-1127 | two names of which the second is never visited |
| `ScopePaths.RegistryStarves` | hydradb/src/bin/graph-indexer.rs:1077-1127 | they are the names of two valid scopes in registry order, so the second of these is never visited |
| `SweepDetection.SweepExact` | hydradb/src/bin/graph-indexer.rs:1461-1487 | a sweep is reported exactly when the pass reaches the final scope, except after a full lap from another registered scope |
| `SweepDetection.StuckForever` | hydradb/src/bin/graph-indexer.rs:1236-1252 | full laps from such a scope repeat unchanged and never report |
| `SweepDetection.SweepWithinRotation` | hydradb/src/bin/graph-indexer.rs:1236-1252 | below a full lap a sweep is reported within one rotation |
| `IndexerCycle.CursorObject.LoadCursor` | hydradb/src/bin/graph-indexer.rs:1489-1525 | the text and version stored, or neither |
| `IndexerCycle.CursorObject.Advance` | hydradb/src/bin/graph-indexer.rs:1527-1556 | succeeds exactly if the version seen is current; a lost race changes nothing |
| `IndexerCycle.RunBatches` | hydradb/src/bin/graph-indexer.rs:1184-1235 | a current cursor ends on the slice's last scope after every batch ran; a stale one stops after one batch with nothing written |
| `IndexerCycle.RunCycle` | hydradb/src/bin/graph-indexer.rs:1104-1253 | undisturbed, the schedule moves and reports exactly as the race-free cycle; a stale cursor is dropped |
| `CursorSafety.WritesAreCovered` | hydradb/src/bin/graph-indexer.rs:1184-1243 | each write continues the last value and every scope it passes was run by its writer since |
| `CursorSafety.CursorPrecedesEveryBatch` | hydradb/src/bin/graph-indexer.rs:1199-1208 | taking the cursor before a batch never finds it gone |
| `CursorSafety.LostRaceLeavesCursor` | hydradb/src/bin/graph-indexer.rs:1527-1556 | a lost race changes nothing durable and the loser reloads |
| `CursorSafety.SweptIsRelisted` | hydradb/src/bin/graph-indexer.rs:1236-1252 | a pass lets the registry be listed again exactly if nothing failed and it reached the final scope, full laps excepted |
| `CursorSafety.NextPassResumes` | hydradb/src/bin/graph-indexer.rs:1104-1125 | a pass that kept its cursor is resumed from it, whatever others wrote; one that lost it starts from the store's |
| `CursorSafety.PutPassesBatch` | hydradb/src/bin/graph-indexer.rs:1184-1215 | a put that takes effect passes one batch: as many scopes as run at once, or what is left |
| `CursorSafety.SilentUntilBegin` | hydradb/src/bin/graph-indexer.rs:1215-1235 | after its pass ended an indexer writes nothing until it begins another |
| `CursorFairness.NoScopeStarves` | hydradb/src/bin/graph-indexer.rs:1104-1243 | over one sorted registry, writes that pass `n` scopes have run every scope in between, under races and crashes |
| `ScopeCache.IndexerScopeCache.Lookup` | hydradb/src/bin/graph-indexer.rs:116-127 | takes a new access stamp; a hit is touched with it and returned, a miss changes nothing |
| `ScopeCache.IndexerScopeCache.LeastRecentlyUsed` | hydradb/src/bin/graph-indexer.rs:153-157 | the least recently used entry nobody holds, if any |
| `ScopeCache.IndexerScopeCache.Admit` | hydradb/src/bin/graph-indexer.rs:143-187 | duplicate, fitting, evicting or full: the new cache, the reader to use and the one given up |
| `ScopeCache.IndexerScopeCache.HotScopes` | hydradb/src/bin/graph-indexer.rs:209-221 | the most recently used hot scopes, latest first |
| `ScopeCache.IndexerScopeCache.FinishScope` | hydradb/src/bin/graph-indexer.rs:223-256 | after a build the entry stays, hot with no idle recheck; the first idle recheck of a hot entry is counted; any other look drops it; another reader is left alone |
| `ScopeCache.IndexerScopeCache.Invalidate` | hydradb/src/bin/graph-indexer.rs:258-278 | removes the entry exactly if it still holds the expected reader |
| `ScopeCache.IndexerScopeCache.InvalidateScope` | hydradb/src/bin/graph-indexer.rs:280-293 | removes whatever the scope has |
| `ScopeCache.IndexerScopeCache.RetainRegistered` | hydradb/src/bin/graph-indexer.rs:295-319 | removes exactly the unregistered entries nobody holds |
| `ScopeCacheResults.EveryReaderOnce` | hydradb/src/bin/graph-indexer.rs:112-319 | in every interleaving each opened reader is in exactly one place and closed at most once |
| `ScopeCacheResults.BoundedAndHot` | hydradb/src/bin/graph-indexer.rs:112-256 | the bound holds and idle entries are hot with fewer than two idle rechecks |
| `ScopeCacheResults.GentleCloseIsUnborrowed` | hydradb/src/bin/graph-indexer.rs:189-205 | eviction, duplicates, rejections and removal of unregistered scopes close nothing that is held |
| `ScopeCacheResults.QuiescentLeavesNothing` | hydradb/src/bin/graph-indexer.rs:112-319 | with no active task every reader is cached or closed, and at most the bound is open |
| `ScopeCacheResults.NeverRefused` | hydradb/src/bin/graph-indexer.rs:153-169 | with no more tasks than slots an open is never rejected |
| `ScopeCacheResults.NoUseAfterClose` | hydradb/src/bin/graph-indexer.rs:1256-1405 | with one task per scope no task uses a reader that is closed or about to be, over whole runs |
| `ScopeCacheResults.BatchUsesOpenExactly` | hydradb/src/bin/graph-indexer.rs:1256-1405 | for every assignment of scopes to a batch's tasks, no run of the batch uses a closed reader if and only if no two tasks share a scope |
| `ScopeCacheResults.SharedWorkUsesClosed` | hydradb/src/bin/graph-indexer.rs:258-278 | any two tasks at one scope have a run in which one closes the reader the other uses |
| `ScopeCacheKeeping.BuiltStaysHot` | hydradb/src/bin/graph-indexer.rs:223-256 | over whole runs a built scope stays cached and hot if and only if no step evicts, invalidates or unregisters it and no second idle recheck, or look of a cold open, comes |
| `ScopeCacheKeeping.LongestUnusedIsEvicted` | hydradb/src/bin/graph-indexer.rs:116-170 | in every run an eviction takes a scope nobody holds that was touched no later than any other such scope |
| `ScopeCacheKeeping.ArrivalsAreNumbered` | hydradb/src/bin/graph-indexer.rs:116 | in every run a task that arrives gets a later number than every task and every stamp before it |
| `IndexerCycle.PlannedBatchUsesOpen` | hydradb/src/bin/graph-indexer.rs:1154-1197 | the batches of a planned cycle have no scope twice, so none uses a closed reader |
| `BoundedCache.BoundedGraphCache.Get` | hydradb/src/core/cache.rs:283-288 | answers the entry's value; in a valid cache its stamp is then above every other's, nothing else changes and the cache stays valid |
| `BoundedCache.BoundedGraphCache.GetLatestBy` | hydradb/src/core/cache.rs:290-302 | the matching entry with the greatest score, looked up |
| `BoundedCache.BoundedGraphCache.InsertSized` | hydradb/src/core/cache.rs:315-357 | keeps exactly the survivors of quota and limits; counters stay exact; answers the value if it survived |
| `BoundedCache.BoundedGraphCache.Retain` | hydradb/src/core/cache.rs:359-368 | keeps exactly the entries asked for |
| `BoundedCache.BoundedGraphCache.EnforceTenantQuota` | hydradb/src/core/cache.rs:370-384 | leaves the tenant's last entries in eviction order and never gives up |
| `BoundedCache.BoundedGraphCache.EnforceTotalLimit` | hydradb/src/core/cache.rs:386-395 | leaves the entries that fit with everything that outlasts them and never gives up |
| `BoundedCache.BoundedGraphCache.EvictOne` | hydradb/src/core/cache.rs:397-417 | removes the oldest candidate, or reports that there is none |
| `BoundedCache.BoundedGraphCache.Remove` | hydradb/src/core/cache.rs:419-424 | removes one entry, corrects both counters, and a valid cache stays valid |
| `BoundedCache.BoundedGraphCache.DecrementTenant` | hydradb/src/core/cache.rs:426-433 | counts down and forgets a tenant at zero |
| `CacheEviction.InsertSound` | hydradb/src/core/cache.rs:315-395 | after every insert all limits hold and stamps are distinct and bounded by the clock |
| `CacheEviction.InsertKeepsWhatFits` | hydradb/src/core/cache.rs:315-395 | while everything fits, an insertion evicts nothing |
| `CacheEviction.InsertEvictsPrefix` | hydradb/src/core/cache.rs:331-417 | from each tenant the evicted entries are a prefix of the eviction order |
| `CacheRuns.RunSound` | hydradb/src/core/cache.rs:283-433 | in every run of operations the limits hold and the stamps are distinct |
| `CacheRuns.FindsLatest` | hydradb/src/core/cache.rs:283-433 | a look-up finds only the last value inserted under its key, and nothing after a removal |
| `CacheRuns.StampsOrderUses` | hydradb/src/core/cache.rs:283-357 | in every run the stamps of live entries order as their last insertions or look-ups |
| `CacheRuns.LongestUnusedGoesFirst` | hydradb/src/core/cache.rs:331-417 | of two entries of a tenant the unpinned one, or among alike the longest unused, is evicted first |
| `ScopePaths.ChildDescends` | hydradb/src/core/namespace.rs:124-177 | a child exists exactly below the depth limit and descends from exactly itself and its parent's ancestors |
| `ScopePaths.DescendsExactly` | hydradb/src/core/namespace.rs:175-177 | a namespace descends from exactly those from which some list of child steps leads to it |
| `ScopePaths.FormatName` | hydradb/src/core/namespace.rs:195-205 | the display loops write the slash-joined components |
| `ScopePaths.FormatStorePath` | hydradb/src/core/namespace.rs:179-186 | the suffix loop writes the tagged components behind the trimmed base |
| `ScopePaths.NameSpelledOut` | hydradb/src/core/namespace.rs:195-205 | the name of a scope two namespaces deep, spelled out |
| `ScopePaths.StorePathSpelledOut` | hydradb/src/core/namespace.rs:243-258 | its store path, spelled out, with and without a base and a trailing slash |
| `ScopePaths.NamesDistinct` | hydradb/src/core/namespace.rs:268-272 | distinct scopes have distinct names |
| `ScopePaths.StorePathsApart` | hydradb/src/core/namespace.rs:243-258 | no scope's path is a segment prefix of another scope's path or of its cells |
| `ScopePaths.CellPathsApart` | hydradb/src/core/namespace.rs:243-258 | cell paths never nest, even when components are named `graphs` or `subnamespaces` |
| `ScopePaths.OrdersAgree` | hydradb/src/core/namespace.rs:225-229 | at one depth, without `-` and `.`, name order is scope order |
| `ScopePaths.PlainRegistryIsFair` | hydradb/src/bin/graph-indexer.rs:1077-1093 | a sorted registry of such scopes is scheduled fairly |
| `ScopePaths.NestingDisagrees` | hydradb/src/core/namespace.rs:225-229 | a nested namespace makes the two orders differ |

## Left out

- HTTP, Bolt, TLS, telemetry, metrics and environment parsing: plumbing.
- SlateDB, the object store and SuiteSparse GraphBLAS: foreign code, present only as an atomic key-value snapshot, a guarded batch, a conditional put and the compact kernel.
- Write paths (beyond the edge records that a topology transaction puts and drops), writer leases, placement and query planning: not modelled.
- FNV and SHA-256 as collision-free identities: equal inputs give equal folds, and for the artifact's checksum one damaged byte is always noticed; no more is claimed.
- The collector of old published epochs in `engine/artifact_gc.rs`: not a step of the publish and cleanup protocol, whose results speak of builders and cleaners.
- `edge_visits` of the traversals: a work counter, not part of the answer.
- Query statistics records, degree counters and the verification reports of `engine.rs`: easy members of the same kinds.
- Failed registry listings, failed or oversized cursor loads: the cycle ends and nothing changes, so they are not steps of the cursor protocol; a scope whose run fails still counts as run, as in the original.
- Tie-breaking by map order among equal `last_used` values in the reader cache: any least recently used entry may go.
- Failed puts of artifact records and lock renewal: a builder or cleaner that fails is a crash step.
- `expand_range_rust`: used only as a reference in the original's own tests; the walks are the specification here.
- Configured limits on the edges of a build: a build over its limit gives up, which is a crash step.
