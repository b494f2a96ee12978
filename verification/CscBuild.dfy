/** The two builders of the image: one over pushed rows, appending to vectors,
    and one over an adjacency, scattering into preallocated arrays. Both
    compute `CscOf`. */
module CscBuild {
  import opened Basics
  import opened Ascending
  import opened Rows
  import opened CscImage

  // matrix_rows_vertices

  ghost function EndpointsFrom(rows: RowMap, done: set<U64>): set<U64> {
    (rows.Keys * done) + set s, d | s in rows && s in done && d in rows[s] :: d
  }

  lemma EndpointsStep(rows: RowMap, done: set<U64>, src: U64, acc: seq<U64>)
    requires src in rows && Elems(acc) == EndpointsFrom(rows, done)
    ensures Elems(acc + [src] + rows[src]) == EndpointsFrom(rows, done + {src})
  {
    var after := EndpointsFrom(rows, done + {src});
    forall x ensures x in after <==> x in EndpointsFrom(rows, done) || x == src || x in rows[src] {
    }
    forall x ensures x in acc + [src] + rows[src] <==> x in Elems(acc) || x == src || x in rows[src] {
    }
  }

  lemma EndpointsAll(rows: RowMap)
    ensures EndpointsFrom(rows, {}) == {} == Elems<U64>([])
    ensures EndpointsFrom(rows, rows.Keys) == Endpoints(rows)
  {
  }

  method RowsVertices(rows: RowMap) returns (vs: seq<U64>)
    ensures vs == DictionaryOf(rows)
  {
    hide *;
    var keys := SourcesInOrder(rows);
    var vertices: seq<U64> := [];
    ghost var done: set<U64> := {};
    NoneVisited(rows);
    EndpointsAll(rows);
    for i := 0 to |keys|
      invariant done == Elems(keys[..i])
      invariant Elems(vertices) == EndpointsFrom(rows, done)
    {
      VisitedSnoc(keys, i);
      EndpointsStep(rows, done, keys[i], vertices);
      vertices := vertices + [keys[i]] + rows[keys[i]];
      done := done + {keys[i]};
    }
    assert keys[..|keys|] == keys;
    vs := Dedup(SortUnstable(vertices));
    DictionaryFromVertices(rows, vertices);
  }

  lemma DictionaryFromVertices(rows: RowMap, vertices: seq<U64>)
    requires Elems(vertices) == Endpoints(rows)
    ensures Dedup(SortUnstable(vertices)) == DictionaryOf(rows)
  {
    SortDedupIsListing(vertices);
  }

  // matrix_rows_pointers

  /** The checked prefix sum fails exactly when the edge total overflows. */
  method RowsPointers(rows: RowMap, vs: seq<U64>) returns (r: Result<seq<U64>>)
    ensures r.Ok? <==> Offset(rows, vs, |vs|) <= U64_MAX
    ensures r.Ok? ==> r.value == PointersUpto(rows, vs, |vs|)
  {
    var pointers: seq<U64> := [0];
    var offset: U64 := 0;
    for i := 0 to |vs|
      invariant offset == Offset(rows, vs, i)
      invariant pointers == PointersUpto(rows, vs, i)
    {
      var degree := |Row(rows, vs[i])|;
      if offset + degree > U64_MAX {
        OffsetMonotone(rows, vs, i + 1, |vs|);
        return Err(CorruptValue);
      }
      offset := offset + degree;
      pointers := pointers + [offset];
    }
    r := Ok(pointers);
  }

  // matrix_rows_indices

  /** Appends the ordinals of one row; fails at the first destination missing
      from the dictionary. */
  method AppendRow(vs: seq<U64>, dsts: seq<U64>, acc: seq<U64>) returns (r: Result<seq<U64>>)
    requires StrictlyAscending(vs)
    ensures r.Ok? <==> Elems(dsts) <= Elems(vs)
    ensures r.Ok? ==> r.value == acc + Ordinals(vs, dsts)
  {
    var indices := acc;
    for j := 0 to |dsts|
      invariant forall d :: d in dsts[..j] ==> d in vs
      invariant indices == acc + Ordinals(vs, dsts)[..j]
    {
      assert dsts[j] in Elems(dsts);
      match BinarySearch(vs, dsts[j]) {
        case None =>
          BinarySearchExact(vs, dsts[j]);
          return Err(CorruptValue);
        case Some(at) =>
          OrdinalExact(vs, dsts[j]);
          indices := indices + [at];
      }
    }
    assert dsts[..|dsts|] == dsts;
    r := Ok(indices);
  }

  method RowsIndices(rows: RowMap, vs: seq<U64>) returns (r: Result<seq<U64>>)
    requires StrictlyAscending(vs)
    ensures r.Ok? <==> Closed(rows, vs)
    ensures r.Ok? ==> r.value == IndicesUpto(rows, vs, |vs|)
  {
    hide StrictlyAscending;
    hide Ordinals;
    var indices: seq<U64> := [];
    for i := 0 to |vs|
      invariant forall k :: 0 <= k < i ==> Elems(Row(rows, vs[k])) <= Elems(vs)
      invariant indices == IndicesUpto(rows, vs, i)
    {
      if vs[i] in rows {
        var more := AppendRow(vs, rows[vs[i]], indices);
        if more.Err? {
          RowMissing(rows, vs, i);
          return Err(CorruptValue);
        }
        indices := more.value;
      } else {
        NoOrdinals(vs);
      }
    }
    AllRowsInside(rows, vs);
    r := Ok(indices);
  }

  lemma NoOrdinals(vs: seq<U64>)
    ensures Ordinals(vs, []) == []
  {
  }

  lemma RowMissing(rows: RowMap, vs: seq<U64>, i: nat)
    requires i < |vs| && vs[i] in rows && !(Elems(rows[vs[i]]) <= Elems(vs))
    ensures !Closed(rows, vs)
  {
    var d :| d in Elems(rows[vs[i]]) && d !in Elems(vs);
    assert vs[i] in vs && d in rows[vs[i]] && d !in vs;
  }

  lemma AllRowsInside(rows: RowMap, vs: seq<U64>)
    requires forall k :: 0 <= k < |vs| ==> Elems(Row(rows, vs[k])) <= Elems(vs)
    ensures Closed(rows, vs)
  {
    forall s, d | s in vs && s in rows && d in rows[s] ensures d in vs {
      var k :| 0 <= k < |vs| && vs[k] == s;
      assert d in Elems(Row(rows, vs[k]));
    }
  }

  /** `matrix_rows_to_graphblas_csc`. */
  method RowsToCsc(rows: RowMap) returns (r: Result<Csc>)
    ensures r.Ok? <==> EdgeTotal(rows) <= U64_MAX
    ensures r.Ok? ==> r.value == CscOf(rows)
  {
    hide StrictlyAscending;
    hide Closed;
    hide Endpoints;
    hide Listing;
    var vertices := RowsVertices(rows);
    var pointers := RowsPointers(rows, vertices);
    if pointers.Err? { return Err(CorruptValue); }
    var indices := RowsIndices(rows, vertices);
    r := Ok(Csc(vertices, pointers.value, indices.value));
  }

  // graphblas_csc_from_adjacency

  const GRAPHBLAS_INDEX_MAX: int := 0xFFF_FFFF_FFFF_FFFF

  /** An adjacency as rows: every destination set in ascending order. */
  ghost function RowsOf(adj: Adjacency): RowMap {
    map s | s in adj :: Listing(adj[s])
  }

  lemma RowsOfAdjacency(edges: set<Edge>)
    ensures Normal(RowsOf(AdjacencyOf(edges))) && Edges(RowsOf(AdjacencyOf(edges))) == edges
  {
    hide Listing;
    var adj := AdjacencyOf(edges);
    var rows := RowsOf(adj);
    forall s | s in rows ensures rows[s] != [] {
      var e :| e in edges && e.0 == s;
      assert e.1 in Targets(edges, s) && Targets(edges, s) == Elems(rows[s]);
    }
    forall e: Edge ensures e in Edges(rows) <==> e in edges {
      if e.0 in adj {
        assert e.1 in rows[e.0] <==> e.1 in Elems(rows[e.0]);
        assert e.1 in Targets(edges, e.0) <==> e in edges;
      }
    }
  }

  /** The degree phase: every source adds its degree one slot to the right of
      its ordinal. */
  method CountDegrees(adj: Adjacency, vs: seq<U64>, keys: seq<U64>, pointers: array<int>)
    requires StrictlyAscending(vs) && StrictlyAscending(keys) && Elems(keys) == adj.Keys <= Elems(vs)
    requires pointers.Length == |vs| + 1 && forall k :: 0 <= k <= |vs| ==> pointers[k] == 0
    modifies pointers
    ensures pointers[0] == 0
    ensures forall k :: 0 <= k < |vs| ==> pointers[k + 1] == |Row(RowsOf(adj), vs[k])|
  {
    hide Listing;
    for i := 0 to |keys|
      invariant pointers[0] == 0
      invariant forall k :: 0 <= k < |vs| ==>
        pointers[k + 1] == if vs[k] in keys[..i] then |Row(RowsOf(adj), vs[k])| else 0
    {
      assert keys[i] in Elems(keys);
      OrdinalExact(vs, keys[i]);
      var at := Ordinal(vs, keys[i]);
      assert keys[..i + 1] == keys[..i] + [keys[i]];
      pointers[at + 1] := pointers[at + 1] + |adj[keys[i]]|;
    }
    assert keys[..|keys|] == keys;
    assert forall k :: 0 <= k < |vs| ==> (vs[k] in keys <==> vs[k] in Elems(keys));
  }

  /** The running sum, in place. */
  method PrefixSum(ghost rows: RowMap, vs: seq<U64>, pointers: array<int>)
    requires pointers.Length == |vs| + 1 && pointers[0] == 0
    requires forall k :: 0 <= k < |vs| ==> pointers[k + 1] == |Row(rows, vs[k])|
    modifies pointers
    ensures forall k :: 0 <= k <= |vs| ==> pointers[k] == Offset(rows, vs, k)
  {
    hide Row, Offset;
    NothingBefore(rows, vs);
    for i := 1 to pointers.Length
      invariant forall k :: 0 <= k < i ==> pointers[k] == Offset(rows, vs, k)
      invariant forall k :: i <= k <= |vs| ==> pointers[k] == |Row(rows, vs[k - 1])|
    {
      OneMore(rows, vs, i);
      pointers[i] := pointers[i] + pointers[i - 1];
    }
  }

  lemma NothingBefore(rows: RowMap, vs: seq<U64>)
    ensures Offset(rows, vs, 0) == 0
  {
  }

  lemma OneMore(rows: RowMap, vs: seq<U64>, i: nat)
    requires 1 <= i <= |vs|
    ensures Offset(rows, vs, i) == Offset(rows, vs, i - 1) + |Row(rows, vs[i - 1])|
  {
  }

  /** The k-th window of an index array is filled. */
  ghost predicate Filled(rows: RowMap, vs: seq<U64>, s: seq<int>, k: nat)
    requires k < |vs|
  {
    && Offset(rows, vs, k + 1) <= |s|
    && s[Offset(rows, vs, k)..Offset(rows, vs, k + 1)] == Ordinals(vs, Row(rows, vs[k]))
  }

  lemma {:induction false} FilledAll(rows: RowMap, vs: seq<U64>, s: seq<int>, n: nat)
    requires n <= |vs| && Offset(rows, vs, n) <= |s|
    requires forall k :: 0 <= k < n ==> Filled(rows, vs, s, k)
    ensures s[..Offset(rows, vs, n)] == IndicesUpto(rows, vs, n)
  {
    if n > 0 {
      FilledAll(rows, vs, s, n - 1);
      assert Filled(rows, vs, s, n - 1);
      var a, b := Offset(rows, vs, n - 1), Offset(rows, vs, n);
      assert s[..b] == s[..a] + s[a..b];
    }
  }

  lemma FilledKept(rows: RowMap, vs: seq<U64>, k: nat, at: nat, s: seq<int>, t: seq<int>)
    requires k < |vs| && at < |vs| && k != at && |s| == |t|
    requires Filled(rows, vs, s, k)
    requires forall p :: 0 <= p < |s| && !(Offset(rows, vs, at) <= p < Offset(rows, vs, at + 1)) ==> t[p] == s[p]
    ensures Filled(rows, vs, t, k)
  {
    if k < at {
      OffsetMonotone(rows, vs, k + 1, at);
    } else {
      OffsetMonotone(rows, vs, at + 1, k);
    }
    var a, b := Offset(rows, vs, k), Offset(rows, vs, k + 1);
    assert s[a..b] == t[a..b];
  }

  /** Writes one row into its window, advancing that row's write offset, and
      leaves every other slot and offset alone. */
  method ScatterRow(ghost rows: RowMap, vs: seq<U64>, k: nat, row: seq<U64>, offsets: array<int>, indices: array<int>)
    requires StrictlyAscending(vs) && k < |vs| && row == Row(rows, vs[k])
    requires Elems(row) <= Elems(vs)
    requires offsets != indices && offsets.Length == |vs| && offsets[k] == Offset(rows, vs, k)
    requires Offset(rows, vs, k + 1) <= indices.Length
    modifies indices, offsets
    ensures Filled(rows, vs, indices[..], k)
    ensures forall p :: 0 <= p < indices.Length && !(Offset(rows, vs, k) <= p < Offset(rows, vs, k + 1)) ==>
              indices[p] == old(indices[p])
    ensures forall o :: 0 <= o < offsets.Length && o != k ==> offsets[o] == old(offsets[o])
  {
    hide StrictlyAscending;
    ghost var start: nat := Offset(rows, vs, k);
    for j := 0 to |row|
      invariant offsets[k] == start + j
      invariant forall i :: 0 <= i < j ==> indices[start + i] == Ordinals(vs, row)[i]
      invariant forall p :: 0 <= p < indices.Length && !(start <= p < start + j) ==> indices[p] == old(indices[p])
      invariant forall o :: 0 <= o < offsets.Length && o != k ==> offsets[o] == old(offsets[o])
    {
      assert row[j] in Elems(row);
      OrdinalExact(vs, row[j]);
      indices[offsets[k]] := BinarySearch(vs, row[j]).value;
      offsets[k] := offsets[k] + 1;
    }
    assert indices[..][start..start + |row|] == Ordinals(vs, row);
  }

  lemma AdjacencyRowInside(adj: Adjacency, vs: seq<U64>, src: U64)
    requires src in adj && src in Elems(vs) && Closed(RowsOf(adj), vs)
    ensures Elems(Listing(adj[src])) <= Elems(vs)
    ensures Listing(adj[src]) == Row(RowsOf(adj), src)
  {
    hide Listing;
    var k :| 0 <= k < |vs| && vs[k] == src;
    RowInside(RowsOf(adj), vs, k);
  }

  lemma ScatterTarget(adj: Adjacency, vs: seq<U64>, src: U64)
    requires StrictlyAscending(vs) && src in adj && src in Elems(vs) && Closed(RowsOf(adj), vs)
    ensures Ordinal(vs, src) < |vs| && vs[Ordinal(vs, src)] == src
    ensures Listing(adj[src]) == Row(RowsOf(adj), src)
    ensures Elems(Listing(adj[src])) <= Elems(vs)
    ensures Offset(RowsOf(adj), vs, Ordinal(vs, src) + 1) <= Offset(RowsOf(adj), vs, |vs|)
  {
    hide Listing;
    hide Ordinal;
    hide Offset;
    OrdinalExact(vs, src);
    hide StrictlyAscending;
    AdjacencyRowInside(adj, vs, src);
    OffsetMonotone(RowsOf(adj), vs, Ordinal(vs, src) + 1, |vs|);
  }

  lemma EmptyWindow(rows: RowMap, vs: seq<U64>, k: nat, s: seq<int>)
    requires k < |vs| && vs[k] !in rows && |s| == Offset(rows, vs, |vs|)
    ensures Filled(rows, vs, s, k)
  {
    OffsetMonotone(rows, vs, k + 1, |vs|);
  }

  /** Every dictionary entry whose row has been visited, or that has none. */
  ghost predicate FilledUpto(rows: RowMap, vs: seq<U64>, keys: seq<U64>, i: nat, s: seq<int>)
    requires i <= |keys|
  {
    forall k :: 0 <= k < |vs| && (vs[k] in keys[..i] || vs[k] !in rows) ==> Filled(rows, vs, s, k)
  }

  ghost predicate OffsetsAhead(rows: RowMap, vs: seq<U64>, keys: seq<U64>, i: nat, offsets: seq<int>)
    requires i <= |keys| && |offsets| == |vs|
  {
    forall k :: 0 <= k < |vs| && vs[k] !in keys[..i] ==> offsets[k] == Offset(rows, vs, k)
  }

  lemma ScatterStep(rows: RowMap, vs: seq<U64>, keys: seq<U64>, i: nat, at: nat,
                    s: seq<int>, t: seq<int>, o: seq<int>, u: seq<int>)
    requires i < |keys| && at < |vs| && vs[at] == keys[i] && StrictlyAscending(vs) && |s| == |t| && |o| == |u| == |vs|
    requires FilledUpto(rows, vs, keys, i, s) && Filled(rows, vs, t, at) && OffsetsAhead(rows, vs, keys, i, o)
    requires forall p :: 0 <= p < |s| && !(Offset(rows, vs, at) <= p < Offset(rows, vs, at + 1)) ==> t[p] == s[p]
    requires forall k :: 0 <= k < |o| && k != at ==> u[k] == o[k]
    ensures FilledUpto(rows, vs, keys, i + 1, t) && OffsetsAhead(rows, vs, keys, i + 1, u)
  {
    hide Filled;
    assert keys[..i + 1] == keys[..i] + [keys[i]];
    assert forall k :: 0 <= k < |vs| && vs[k] == vs[at] ==> k == at;
    hide StrictlyAscending;
    forall k | 0 <= k < |vs| && k != at && (vs[k] in keys[..i + 1] || vs[k] !in rows) ensures Filled(rows, vs, t, k) {
      FilledKept(rows, vs, k, at, s, t);
    }
  }

  /** The scatter phase, source by source. */
  method ScatterRows(adj: Adjacency, vs: seq<U64>, keys: seq<U64>, offsets: array<int>, indices: array<int>)
    requires StrictlyAscending(vs) && StrictlyAscending(keys) && Elems(keys) == adj.Keys <= Elems(vs)
    requires Closed(RowsOf(adj), vs)
    requires indices.Length == Offset(RowsOf(adj), vs, |vs|) && offsets != indices && offsets.Length == |vs|
    requires forall k :: 0 <= k < |vs| ==> offsets[k] == Offset(RowsOf(adj), vs, k)
    modifies indices, offsets
    ensures indices[..] == IndicesUpto(RowsOf(adj), vs, |vs|)
  {
    hide *;
    ghost var rows := RowsOf(adj);
    ScatterInit(adj, vs, keys, offsets[..], indices[..]);
    for i := 0 to |keys|
      invariant FilledUpto(rows, vs, keys, i, indices[..])
      invariant OffsetsAhead(rows, vs, keys, i, offsets[..])
    {
      VisitedSnoc(keys, i);
      ScatterTarget(adj, vs, keys[i]);
      var at := Ordinal(vs, keys[i]);
      NotYetVisited(rows, vs, keys, i, at, offsets[..]);
      ghost var before, moved := indices[..], offsets[..];
      ScatterRow(rows, vs, at, Listing(adj[keys[i]]), offsets, indices);
      ScatterStep(rows, vs, keys, i, at, before, indices[..], moved, offsets[..]);
    }
    ScatterDone(adj, vs, keys, indices[..]);
  }

  lemma NotYetVisited(rows: RowMap, vs: seq<U64>, keys: seq<U64>, i: nat, at: nat, o: seq<int>)
    requires i < |keys| && at < |vs| == |o| && vs[at] == keys[i] && keys[i] !in Elems(keys[..i])
    requires OffsetsAhead(rows, vs, keys, i, o)
    ensures o[at] == Offset(rows, vs, at)
  {
  }

  lemma ScatterInit(adj: Adjacency, vs: seq<U64>, keys: seq<U64>, o: seq<int>, s: seq<int>)
    requires |s| == Offset(RowsOf(adj), vs, |vs|) && |o| == |vs|
    requires forall k :: 0 <= k < |vs| ==> o[k] == Offset(RowsOf(adj), vs, k)
    ensures FilledUpto(RowsOf(adj), vs, keys, 0, s) && OffsetsAhead(RowsOf(adj), vs, keys, 0, o)
  {
    var rows := RowsOf(adj);
    forall k | 0 <= k < |vs| && vs[k] !in rows ensures Filled(rows, vs, s, k) {
      EmptyWindow(rows, vs, k, s);
    }
  }

  lemma ScatterDone(adj: Adjacency, vs: seq<U64>, keys: seq<U64>, s: seq<int>)
    requires Elems(keys) == adj.Keys && |s| == Offset(RowsOf(adj), vs, |vs|)
    requires FilledUpto(RowsOf(adj), vs, keys, |keys|, s)
    ensures s == IndicesUpto(RowsOf(adj), vs, |vs|)
  {
    var rows := RowsOf(adj);
    assert keys[..|keys|] == keys;
    forall k | 0 <= k < |vs| ensures Filled(rows, vs, s, k) {
      assert vs[k] in keys <==> vs[k] in Elems(keys);
    }
    FilledAll(rows, vs, s, |vs|);
    assert s[..|s|] == s;
  }

  lemma AdjacencyStep(adj: Adjacency, done: set<U64>, src: U64)
    requires src in adj
    ensures EndpointsFrom(RowsOf(adj), done + {src}) == EndpointsFrom(RowsOf(adj), done) + {src} + adj[src]
  {
    hide Listing;
    var rows := RowsOf(adj);
    var a, b := EndpointsFrom(rows, done + {src}), EndpointsFrom(rows, done) + {src} + adj[src];
    forall v ensures v in a <==> v in b {
      assert v in Listing(adj[src]) <==> v in Elems(Listing(adj[src]));
      assert src in done + {src} && rows[src] == Listing(adj[src]);
    }
  }

  method AdjacencySources(adj: Adjacency) returns (keys: seq<U64>)
    ensures StrictlyAscending(keys) && Elems(keys) == adj.Keys
  {
    keys := Listing(adj.Keys);
  }

  /** `graphblas_vertices_from_adjacency`, before its limit check. */
  method AdjacencyVertices(adj: Adjacency) returns (vs: seq<U64>)
    ensures vs == DictionaryOf(RowsOf(adj))
  {
    hide *;
    var keys := AdjacencySources(adj);
    var vertices: set<U64> := {};
    ghost var done: set<U64> := {};
    NoneVisited(RowsOf(adj));
    EndpointsAll(RowsOf(adj));
    for i := 0 to |keys|
      invariant done == Elems(keys[..i])
      invariant vertices == EndpointsFrom(RowsOf(adj), done)
    {
      VisitedSnoc(keys, i);
      AdjacencyStep(adj, done, keys[i]);
      vertices := vertices + {keys[i]} + adj[keys[i]];
      done := done + {keys[i]};
    }
    assert keys[..|keys|] == keys;
    vs := Listing(vertices);
    DictionaryIsListing(adj);
  }

  lemma DictionaryIsListing(adj: Adjacency)
    ensures RowsOf(adj).Keys == adj.Keys
    ensures DictionaryOf(RowsOf(adj)) == Listing(Endpoints(RowsOf(adj)))
    ensures adj.Keys <= Elems(DictionaryOf(RowsOf(adj)))
  {
  }

  lemma AssembleCsc(rows: RowMap, vs: seq<U64>, pointers: seq<int>, indices: seq<int>)
    requires vs == DictionaryOf(rows) && EdgeTotal(rows) <= U64_MAX && |pointers| == |vs| + 1
    requires forall k :: 0 <= k <= |vs| ==> pointers[k] == Offset(rows, vs, k)
    requires indices == IndicesUpto(rows, vs, |vs|)
    ensures forall k :: 0 <= k < |pointers| ==> 0 <= pointers[k] <= U64_MAX
    ensures forall k :: 0 <= k < |indices| ==> 0 <= indices[k] <= U64_MAX
    ensures Csc(vs, pointers, indices) == CscOf(rows)
  {
    hide DictionaryOf;
    hide IndicesUpto;
    assert pointers == PointersUpto(rows, vs, |vs|);
  }

  /** `graphblas_csc_from_adjacency`: fails on a dictionary over the kernel's
      index limit; otherwise the same image the row builder gives. */
  method AdjacencyToCsc(adj: Adjacency) returns (r: Result<Csc>)
    requires EdgeTotal(RowsOf(adj)) <= U64_MAX
    ensures r.Ok? <==> |DictionaryOf(RowsOf(adj))| <= GRAPHBLAS_INDEX_MAX
    ensures r.Ok? ==> r.value == CscOf(RowsOf(adj))
  {
    hide *;
    ghost var rows := RowsOf(adj);
    var vs := AdjacencyVertices(adj);
    if |vs| > GRAPHBLAS_INDEX_MAX { return Err(SparseKernel); }
    var keys := AdjacencySources(adj);
    DictionaryIsListing(adj);
    var pointers := new int[|vs| + 1](_ => 0);
    CountDegrees(adj, vs, keys, pointers);
    PrefixSum(rows, vs, pointers);
    var indices := new int[pointers[|vs|]](_ => 0);
    var offsets := new int[|vs|](k requires 0 <= k < pointers.Length reads pointers => pointers[k]);
    ScatterRows(adj, vs, keys, offsets, indices);
    AssembleCsc(rows, vs, pointers[..], indices[..]);
    r := Ok(Csc(vs, pointers[..], indices[..]));
  }
}
