/** Reading an artifact straight into 32-bit arrays, and what a traversal of it
    finds. */
module CompactRead {
  import opened Basics
  import opened Ascending
  import opened Binary
  import opened WriteBatch
  import opened Rows
  import opened CscImage
  import opened Chunking
  import opened Checksum
  import opened CscArtifact
  import opened ArtifactLoad
  import opened Reachability
  import opened CompactKernel
  import opened ArtifactPipeline

  ghost predicate Narrow(values: seq<U64>) { forall v :: v in values ==> v <= U32_MAX }

  /** `graphblas_csc_checksum_compact`: widening each value as it is folded gives
      the checksum of the 64-bit arrays. */
  method CompactChecksum(vertices: seq<U64>, pointers: seq<U32>, indices: seq<U32>) returns (h: U64)
    ensures h == CscChecksum(Csc(vertices, pointers, indices))
  {
    hide Fold;
    var wide := Csc(vertices, pointers, indices);
    var r := FoldTagged(wide.vertices, wide.pointers, wide.indices);
    h := r;
  }

  method FoldTagged(v: seq<U64>, p: seq<U64>, i: seq<U64>) returns (r: U64)
    ensures r == Fold(SEED, [1] + v + [2] + p + [3] + i)
  {
    hide *;
    var tagged := FoldU64(SEED, 1);
    var first := FoldInto(tagged, v);
    tagged := FoldU64(first, 2);
    var second := FoldInto(tagged, p);
    tagged := FoldU64(second, 3);
    r := FoldInto(tagged, i);
    FoldSections(v, p, i);
  }

  lemma FoldSections(v: seq<U64>, p: seq<U64>, i: seq<U64>)
    ensures Fold(SEED, [1] + v + [2] + p + [3] + i)
              == Fold(FoldU64(Fold(FoldU64(Fold(FoldU64(SEED, 1), v), 2), p), 3), i)
  {
    hide FoldU64;
    FoldTag(SEED, [], 1, v);
    assert [] + [1] + v == [1] + v;
    FoldTag(SEED, [1] + v, 2, p);
    FoldTag(SEED, [1] + v + [2] + p, 3, i);
  }

  lemma FoldTag(h: U64, before: seq<U64>, tag: U64, after: seq<U64>)
    ensures Fold(h, before + [tag] + after) == Fold(FoldU64(Fold(h, before), tag), after)
  {
    hide FoldU64;
    FoldConcat(h, before + [tag], after);
    assert (before + [tag])[..|before|] == before;
  }

  /** The image behind a chunked record, checked against its manifest and checksum
      but not validated. */
  function Unvalidated(store: Store, at: ArtifactId): Result<Csc> {
    if !Chunked(store, at) then Err(CorruptValue)
    else
      var m :- DecodeManifest(store[CscKey(at)]);
      if m.id != at || |m.lens| != 3 || |m.chunks| != 3 then Err(CorruptValue)
      else
        var vertices :- LoadField(store, at, Vertices, m.chunks[0], m.lens[0]);
        var pointers :- LoadField(store, at, Pointers, m.chunks[1], m.lens[1]);
        var indices :- LoadField(store, at, Indices, m.chunks[2], m.lens[2]);
        var c := Csc(vertices, pointers, indices);
        if CscChecksum(c) != m.checksum then Err(CorruptValue) else Ok(c)
  }

  /** The validating reader is the unvalidated one followed by validation. */
  lemma ValidatedRead(store: Store, at: ArtifactId)
    requires ValidId(at) && Chunked(store, at)
    ensures ReadArtifact(store, at).Ok? <==> Unvalidated(store, at).Ok? && WellFormed(Unvalidated(store, at).value)
    ensures ReadArtifact(store, at).Ok? ==> ReadArtifact(store, at).value == Some(Unvalidated(store, at).value)
  {
    hide DecodeManifest, LoadField, CscChecksum, Validate, WellFormed, CscKey, AsciiBytes;
    if Unvalidated(store, at).Ok? { ValidateExact(Unvalidated(store, at).value); }
  }

  /** `compact_graphblas_csc_matrix`: nothing for an absent or older record,
      otherwise the arrays if pointers and indices fit in 32 bits. Unlike the
      64-bit reader it does not validate the image. */
  method ReadCompact(store: Store, at: ArtifactId) returns (r: Result<Option<Csc>>)
    requires ValidId(at)
    ensures r == Ok(None) <==> !Chunked(store, at)
    ensures r.Ok? && r.value.Some? ==> Narrow(r.value.value.pointers) && Narrow(r.value.value.indices)
    ensures forall c: Csc :: Chunked(store, at) && ReadArtifact(store, at) == Ok(Some(c)) ==>
              if Narrow(c.pointers) && Narrow(c.indices) then r == Ok(Some(c)) else r.Err?
    ensures r.Ok? && r.value.Some? ==> Unvalidated(store, at) == Ok(r.value.value)
    ensures Unvalidated(store, at).Ok? ==>
              (r.Ok? <==> Narrow(Unvalidated(store, at).value.pointers) && Narrow(Unvalidated(store, at).value.indices))
  {
    hide DecodeManifest, LoadField, CscChecksum, Validate, CscKey, AsciiBytes, DecodeLegacy;
    if CscKey(at) !in store { return Ok(None); }
    var value := store[CscKey(at)];
    if AsciiBytes(LEGACY_MAGIC) <= value { return Ok(None); }
    var m := DecodeManifest(value);
    if m.Err? { return Err(m.error); }
    if m.value.id != at || |m.value.lens| != 3 || |m.value.chunks| != 3 { return Err(CorruptValue); }
    var vertices := LoadChunks(store, at, Vertices, m.value.chunks[0], m.value.lens[0]);
    if vertices.Err? { return Err(CorruptValue); }
    var pointers := LoadChunksU32(store, at, Pointers, m.value.chunks[1], m.value.lens[1]);
    if pointers.Err? { return Err(CorruptValue); }
    var indices := LoadChunksU32(store, at, Indices, m.value.chunks[2], m.value.lens[2]);
    if indices.Err? { return Err(CorruptValue); }
    var checksum := CompactChecksum(vertices.value, pointers.value, indices.value);
    if checksum != m.value.checksum { return Err(CorruptValue); }
    r := Ok(Some(Csc(vertices.value, pointers.value, indices.value)));
  }

  // From pushed edges to answers.

  /** A walk along the given edges. */
  ghost predicate EdgeWalk(edges: set<Edge>, w: seq<U64>) {
    w != [] && forall i :: 0 <= i < |w| - 1 ==> (w[i], w[i + 1]) in edges
  }

  ghost predicate Connected(edges: set<Edge>, starts: set<U64>, lo: nat, hi: nat, v: U64) {
    exists w :: EdgeWalk(edges, w) && lo <= |w| - 1 <= hi && w[0] in starts && w[|w| - 1] == v
  }

  lemma NeighborsOfEdges(edges: set<Edge>, a: U64, b: U64)
    ensures b in Neighbors(AdjacencyOf(edges), a) <==> (a, b) in edges
  {
    if (a, b) in edges {
      assert (a, b).0 == a && (a, b).1 == b;
      assert a in Sources(edges) && b in Targets(edges, a);
    }
  }

  lemma ReachesIsConnected(edges: set<Edge>, starts: set<U64>, lo: nat, hi: nat, v: U64)
    ensures Reaches(AdjacencyOf(edges), starts, lo, hi, v) <==> Connected(edges, starts, lo, hi, v)
  {
    var adj := AdjacencyOf(edges);
    forall a: U64, b: U64 ensures b in Neighbors(adj, a) <==> (a, b) in edges { NeighborsOfEdges(edges, a, b); }
    hide AdjacencyOf, Neighbors;
    assert forall w :: IsWalk(adj, w) <==> EdgeWalk(edges, w);
    if Reaches(adj, starts, lo, hi, v) {
      var n :| lo <= n <= hi && Walks(adj, starts, n, v);
      var w :| IsWalk(adj, w) && |w| == n + 1 && w[0] in starts && w[n] == v;
      assert EdgeWalk(edges, w) && lo <= |w| - 1 <= hi;
    }
    if Connected(edges, starts, lo, hi, v) {
      var w :| EdgeWalk(edges, w) && lo <= |w| - 1 <= hi && w[0] in starts && w[|w| - 1] == v;
      assert IsWalk(adj, w);
      assert Walks(adj, starts, |w| - 1, v);
    }
  }

  /** Build an artifact from pushed edges, read it back and traverse it with the
      compact kernel: the answer is exactly what the pushed edges connect,
      whatever their order and multiplicity and whatever the store held. */
  method BuildAndExpand(edges: seq<Edge>, at: ArtifactId, base: Store, starts: seq<U64>, hops: Byte)
    returns (r: seq<U64>)
    requires ValidId(at) && |edges| <= MAX_VEC
    ensures StrictlyAscending(r)
    ensures forall v :: v in r <==> v !in starts && Connected(Elems(edges), Elems(starts), 1, hops, v)
  {
    hide *;
    var store := BuildArtifact(edges, at, base);
    ghost var image :| ReadsAs(store, at, Elems(edges), image);
    ReadsAsMeans(store, at, Elems(edges), image);
    var c := ReadArtifact(store, at).value.value;
    DecodedIs(c);
    r := CompactKernel.Expand(c, starts, hops);
    forall v ensures v in r <==> v !in starts && Connected(Elems(edges), Elems(starts), 1, hops, v) {
      ReachesIsConnected(Elems(edges), Elems(starts), 1, hops, v);
    }
  }

  /** The same through the 32-bit reader, which does not validate: what the
      builder wrote is well formed on that path too. It answers if and only if the
      edges are few enough for 32 bits and so is, for every destination, the number
      of endpoints below it. */
  method BuildAndExpandCompact(edges: seq<Edge>, at: ArtifactId, base: Store, starts: seq<U64>, hops: Byte)
    returns (r: Result<seq<U64>>)
    requires ValidId(at) && |edges| <= MAX_VEC
    ensures r.Ok? <==> |Elems(edges)| <= U32_MAX && DestinationsFit(Elems(edges))
    ensures |Elems(edges)| <= U32_MAX && |Ends(Elems(edges))| <= U32_MAX + 1 ==> r.Ok?
    ensures r.Ok? ==> StrictlyAscending(r.value)
    ensures r.Ok? ==> forall v :: v in r.value <==> v !in starts && Connected(Elems(edges), Elems(starts), 1, hops, v)
  {
    hide *;
    var store := BuildArtifact(edges, at, base);
    ghost var c :| ReadsAs(store, at, Elems(edges), c);
    ReadsAsMeans(store, at, Elems(edges), c);
    NarrowWhen(c);
    DecodedIs(c);
    NarrowIndices(c, Elems(edges));
    var image := ReadCompact(store, at);
    if image.Err? { return Err(image.error); }
    assert image == Ok(Some(c));
    var found := CompactKernel.Expand(image.value.value, starts, hops);
    forall v ensures v in found <==> v !in starts && Connected(Elems(edges), Elems(starts), 1, hops, v) {
      ReachesIsConnected(Elems(edges), Elems(starts), 1, hops, v);
    }
    r := Ok(found);
  }

  /** How large a well-formed image may be for 32 bits. */
  lemma NarrowWhen(c: Csc)
    requires WellFormed(c)
    ensures Narrow(c.pointers) <==> |c.indices| <= U32_MAX
    ensures |c.vertices| <= U32_MAX + 1 ==> Narrow(c.indices)
  {
    var last := c.pointers[|c.vertices|];
    assert last in c.pointers;
    forall p | p in c.pointers ensures p <= last {
      var k :| 0 <= k < |c.pointers| && c.pointers[k] == p;
    }
  }

  // Which ordinals the indices hold.

  ghost function Under(s: set<U64>, v: U64): set<U64> { set x | x in s && x < v }

  /** How many of these are below `v`. */
  ghost function Rank(s: set<U64>, v: U64): nat { |Under(s, v)| }

  /** Every destination's place among the endpoints fits in 32 bits. */
  ghost predicate DestinationsFit(edges: set<Edge>) {
    forall e :: e in edges ==> Rank(Ends(edges), e.1) <= U32_MAX
  }

  lemma RankIsOrdinal(vs: seq<U64>, o: nat)
    requires StrictlyAscending(vs) && o < |vs|
    ensures Rank(Elems(vs), vs[o]) == o
  {
    var below := Under(Elems(vs), vs[o]);
    forall x ensures x in below <==> x in Elems(vs[..o]) {
      if x in below {
        var i :| 0 <= i < |vs| && vs[i] == x;
        assert vs[..o][i] == x;
      }
    }
    assert below == Elems(vs[..o]);
    AscendingNoDup(vs[..o]);
  }

  /** Every index lies in some row. */
  lemma {:induction false} InSomeRow(c: Csc, p: nat, n: nat) returns (k: nat)
    requires WellFormed(c) && n < |c.pointers| && p < c.pointers[n]
    ensures k < n && c.pointers[k] <= p < c.pointers[k + 1]
  {
    if n > 0 && p < c.pointers[n - 1] { k := InSomeRow(c, p, n - 1); } else { k := n - 1; }
  }

  /** An ordinal is an index exactly if its vertex is a destination. */
  lemma IndexedIsDestination(c: Csc, edges: set<Edge>, o: U64)
    requires WellFormed(c) && Decoded(c) == AdjacencyOf(edges) && o < Dim(c)
    ensures o in c.indices <==> c.vertices[o] in Dests(edges)
  {
    if o in c.indices {
      var p :| 0 <= p < |c.indices| && c.indices[p] == o;
      RowHolds(c, edges, p, o);
    }
    if c.vertices[o] in Dests(edges) {
      var e :| e in edges && e.1 == c.vertices[o];
      DestinationIndexed(c, edges, e, o);
    }
  }

  lemma RowHolds(c: Csc, edges: set<Edge>, p: nat, o: U64)
    requires WellFormed(c) && Decoded(c) == AdjacencyOf(edges) && o < Dim(c) && p < |c.indices| && c.indices[p] == o
    ensures c.vertices[o] in Dests(edges)
  {
    var k := InSomeRow(c, p, |c.vertices|);
    DecodedAt(c, Dim(c), c.vertices[k]);
    assert RowAt(c, k)[p - c.pointers[k]] == o;
    hide WellFormed, DecodedUpto, AdjacencyOf, RowAt;
    assert c.vertices[o] in NamesOf(c, RowAt(c, k));
    NeighborsOfEdges(edges, c.vertices[k], c.vertices[o]);
    assert (c.vertices[k], c.vertices[o]).1 in Dests(edges);
  }

  lemma DestinationIndexed(c: Csc, edges: set<Edge>, e: Edge, o: U64)
    requires WellFormed(c) && Decoded(c) == AdjacencyOf(edges) && o < Dim(c) && e in edges && e.1 == c.vertices[o]
    ensures o in c.indices
  {
    hide DecodedUpto, AdjacencyOf, WellFormed, RowAt;
    NeighborsOfEdges(edges, e.0, e.1);
    DecodedAt(c, Dim(c), e.0);
    var i :| 0 <= i < Dim(c) && c.vertices[i] == e.0;
    var k :| k in RowAt(c, i) && c.vertices[k] == e.1;
    RowsAreIndices(c, i, k);
    SamePlace(c.vertices, k, o);
  }

  lemma RowsAreIndices(c: Csc, i: nat, k: U64)
    requires WellFormed(c) && i < Dim(c) && k in RowAt(c, i)
    ensures k in c.indices && k < Dim(c) && StrictlyAscending(c.vertices)
  {
  }

  lemma SamePlace(vs: seq<U64>, i: nat, j: nat)
    requires StrictlyAscending(vs) && i < |vs| && j < |vs| && vs[i] == vs[j]
    ensures i == j
  {
  }

  lemma NarrowIndices(c: Csc, edges: set<Edge>)
    requires WellFormed(c) && Decoded(c) == AdjacencyOf(edges) && Elems(c.vertices) == Ends(edges)
    ensures Narrow(c.indices) <==> DestinationsFit(edges)
  {
    assert StrictlyAscending(c.vertices);
    forall v | v in c.indices ensures v < Dim(c) { }
    hide WellFormed, Decoded, AdjacencyOf, Rank;
    forall e | e in edges ensures exists o: U64 :: o in c.indices && o < Dim(c) && Rank(Ends(edges), e.1) == o {
      assert e.1 in Dests(edges) && e.1 in Elems(c.vertices);
      var o :| 0 <= o < |c.vertices| && c.vertices[o] == e.1;
      PositionBound(c.vertices, o);
      IndexedIsDestination(c, edges, o);
      RankIsOrdinal(c.vertices, o);
    }
    forall o | o in c.indices ensures exists e :: e in edges && Rank(Ends(edges), e.1) == o {
      IndexedIsDestination(c, edges, o);
      var e :| e in edges && e.1 == c.vertices[o];
      RankIsOrdinal(c.vertices, o);
    }
  }

  lemma ReadsAsMeans(store: Store, at: ArtifactId, edges: set<Edge>, c: Csc)
    requires ValidId(at) && ReadsAs(store, at, edges, c)
    ensures ReadArtifact(store, at) == Ok(Some(c)) && WellFormed(c)
    ensures |c.indices| == |edges| && |c.vertices| == |Ends(edges)| && Elems(c.vertices) == Ends(edges)
    ensures DecodedUpto(c, |c.vertices|) == AdjacencyOf(edges)
  {
    hide ReadArtifact, WellFormed, DecodedUpto, AdjacencyOf, Ends;
  }

  lemma DecodedIs(c: Csc)
    requires WellFormed(c)
    ensures Decoded(c) == DecodedUpto(c, |c.vertices|)
  {
  }
}
