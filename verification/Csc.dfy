/** The compressed-sparse-column image of a row map: a vertex dictionary,
    prefix-sum pointers and dictionary ordinals. */
module CscImage {
  import opened Basics
  import opened Ascending
  import opened Rows

  datatype Csc = Csc(vertices: seq<U64>, pointers: seq<U64>, indices: seq<U64>)

  function Endpoints(rows: RowMap): set<U64> {
    rows.Keys + set s, d | s in rows && d in rows[s] :: d
  }

  /** `slice::binary_search` on the half-open window `lo..hi`. */
  function SearchWindow(vs: seq<U64>, x: U64, lo: nat, hi: nat): (r: Option<nat>)
    requires lo <= hi <= |vs|
    ensures r.Some? ==> r.value < |vs| && vs[r.value] == x
    decreases hi - lo
  {
    if lo == hi then None
    else
      var mid := lo + (hi - lo) / 2;
      if vs[mid] == x then Some(mid)
      else if vs[mid] < x then SearchWindow(vs, x, mid + 1, hi)
      else SearchWindow(vs, x, lo, mid)
  }

  lemma {:induction false} SearchFinds(vs: seq<U64>, x: U64, lo: nat, hi: nat, at: nat)
    requires StrictlyAscending(vs) && lo <= at < hi <= |vs| && vs[at] == x
    ensures SearchWindow(vs, x, lo, hi) == Some(at)
    decreases hi - lo
  {
    var mid := lo + (hi - lo) / 2;
    if at < mid { SearchFinds(vs, x, lo, mid, at); }
    if mid < at { SearchFinds(vs, x, mid + 1, hi, at); }
  }

  function BinarySearch(vs: seq<U64>, x: U64): (r: Option<nat>)
    ensures r.Some? ==> r.value < |vs| && vs[r.value] == x
  {
    SearchWindow(vs, x, 0, |vs|)
  }

  /** In a strictly ascending dictionary the search succeeds exactly on its
      members, at their only position. */
  lemma BinarySearchExact(vs: seq<U64>, x: U64)
    requires StrictlyAscending(vs)
    ensures BinarySearch(vs, x).Some? <==> x in vs
    ensures forall at :: 0 <= at < |vs| && vs[at] == x ==> BinarySearch(vs, x) == Some(at)
  {
    forall at | 0 <= at < |vs| && vs[at] == x ensures BinarySearch(vs, x) == Some(at) {
      SearchFinds(vs, x, 0, |vs|, at);
    }
  }

  /** Dictionary positions fit in 64 bits because the entries do. */
  lemma {:induction false} PositionBound(vs: seq<U64>, i: nat)
    requires StrictlyAscending(vs) && i < |vs|
    ensures i <= vs[i]
  {
    if i > 0 { PositionBound(vs, i - 1); }
  }

  /** The position of `x` in the dictionary (0 when it has none). */
  function Ordinal(vs: seq<U64>, x: U64): U64 {
    match BinarySearch(vs, x)
    case Some(at) => if at <= U64_MAX then at else 0
    case None => 0
  }

  lemma OrdinalExact(vs: seq<U64>, x: U64)
    requires StrictlyAscending(vs) && x in vs
    ensures Ordinal(vs, x) < |vs| && vs[Ordinal(vs, x)] == x
    ensures BinarySearch(vs, x) == Some(Ordinal(vs, x))
  {
    BinarySearchExact(vs, x);
    PositionBound(vs, BinarySearch(vs, x).value);
  }

  function Ordinals(vs: seq<U64>, dsts: seq<U64>): (r: seq<U64>)
    ensures |r| == |dsts|
  {
    seq(|dsts|, i requires 0 <= i < |dsts| => Ordinal(vs, dsts[i]))
  }

  lemma OrdinalsExact(vs: seq<U64>, dsts: seq<U64>)
    requires StrictlyAscending(vs) && Elems(dsts) <= Elems(vs)
    ensures forall i :: 0 <= i < |dsts| ==> Ordinals(vs, dsts)[i] < |vs| && vs[Ordinals(vs, dsts)[i]] == dsts[i]
  {
    forall i | 0 <= i < |dsts| ensures Ordinals(vs, dsts)[i] < |vs| && vs[Ordinals(vs, dsts)[i]] == dsts[i] {
      assert dsts[i] in Elems(dsts);
      OrdinalExact(vs, dsts[i]);
    }
  }

  /** All destinations of the listed sources are in the dictionary. */
  ghost predicate Closed(rows: RowMap, vs: seq<U64>) {
    forall s, d :: s in vs && s in rows && d in rows[s] ==> d in vs
  }

  function PointersUpto(rows: RowMap, vs: seq<U64>, n: nat): (r: seq<U64>)
    requires n <= |vs| && Offset(rows, vs, n) <= U64_MAX
    ensures |r| == n + 1
    ensures forall k :: 0 <= k <= n ==> r[k] == Offset(rows, vs, k)
  {
    if n == 0 then [0] else PointersUpto(rows, vs, n - 1) + [Offset(rows, vs, n)]
  }

  /** The ordinals of the rows of the first `n` dictionary entries. */
  function IndicesUpto(rows: RowMap, vs: seq<U64>, n: nat): (r: seq<U64>)
    requires n <= |vs|
    ensures |r| == Offset(rows, vs, n)
  {
    if n == 0 then []
    else IndicesUpto(rows, vs, n - 1) + Ordinals(vs, Row(rows, vs[n - 1]))
  }

  lemma RowInside(rows: RowMap, vs: seq<U64>, k: nat)
    requires Closed(rows, vs) && k < |vs|
    ensures Elems(Row(rows, vs[k])) <= Elems(vs)
  {
  }

  /** The dictionary of all endpoints. */
  function DictionaryOf(rows: RowMap): (vs: seq<U64>)
    ensures StrictlyAscending(vs) && Closed(rows, vs)
    ensures Elems(vs) == Endpoints(rows)
  {
    var vs := Listing(Endpoints(rows));
    assert forall x :: x in vs <==> x in Elems(vs);
    vs
  }

  function CscOver(rows: RowMap, vs: seq<U64>): Csc
    requires Offset(rows, vs, |vs|) <= U64_MAX
  {
    Csc(vs, PointersUpto(rows, vs, |vs|), IndicesUpto(rows, vs, |vs|))
  }

  lemma {:induction false} IndicesPrefix(rows: RowMap, vs: seq<U64>, i: nat, j: nat)
    requires i <= j <= |vs|
    ensures IndicesUpto(rows, vs, i) <= IndicesUpto(rows, vs, j)
  {
    if i < j { IndicesPrefix(rows, vs, i, j - 1); }
  }

  lemma PrefixWindow(before: seq<U64>, row: seq<U64>, all: seq<U64>)
    requires before + row <= all
    ensures all[|before|..|before| + |row|] == row
  {
    assert (before + row)[|before|..] == row;
  }

  /** The index window of the k-th vertex holds exactly the ordinals of its
      row. */
  lemma RowWindow(rows: RowMap, vs: seq<U64>, k: nat)
    requires Offset(rows, vs, |vs|) <= U64_MAX && k < |vs|
    ensures var c := CscOver(rows, vs);
            && 0 <= c.pointers[k] <= c.pointers[k + 1] <= |c.indices|
            && c.indices[c.pointers[k]..c.pointers[k + 1]] == Ordinals(vs, Row(rows, vs[k]))
  {
    hide Ordinals, Row;
    IndicesPrefix(rows, vs, k + 1, |vs|);
    PrefixWindow(IndicesUpto(rows, vs, k), Ordinals(vs, Row(rows, vs[k])), IndicesUpto(rows, vs, |vs|));
  }

  lemma {:induction false} IndicesInRange(rows: RowMap, vs: seq<U64>, n: nat)
    requires StrictlyAscending(vs) && Closed(rows, vs) && n <= |vs|
    ensures forall i :: i in IndicesUpto(rows, vs, n) ==> i < |vs|
  {
    hide Ordinals, Row, Closed, StrictlyAscending;
    if n > 0 {
      IndicesInRange(rows, vs, n - 1);
      RowInside(rows, vs, n - 1);
      OrdinalsInRange(vs, Row(rows, vs[n - 1]));
    }
  }

  lemma OrdinalsInRange(vs: seq<U64>, dsts: seq<U64>)
    requires StrictlyAscending(vs) && Elems(dsts) <= Elems(vs)
    ensures forall i :: i in Ordinals(vs, dsts) ==> i < |vs|
  {
    OrdinalsExact(vs, dsts);
  }

  // Validation.

  /** `validate_graphblas_csc_artifact`: the checks in source order. */
  function Validate(c: Csc): Result<()> {
    if |c.pointers| != |c.vertices| + 1 then Err(CorruptValue)
    else if c.pointers[0] != 0 then Err(CorruptValue)
    else if exists k :: 0 <= k < |c.pointers| - 1 && c.pointers[k] > c.pointers[k + 1] then Err(CorruptValue)
    else if c.pointers[|c.pointers| - 1] != |c.indices| then Err(CorruptValue)
    else if exists p :: 0 <= p < |c.indices| && c.indices[p] >= |c.vertices| then Err(CorruptValue)
    else if exists k :: 0 <= k < |c.vertices| - 1 && c.vertices[k] >= c.vertices[k + 1] then Err(CorruptValue)
    else Ok(())
  }

  ghost predicate WellFormed(c: Csc) {
    && |c.pointers| == |c.vertices| + 1
    && c.pointers[0] == 0
    && NonDescending(c.pointers)
    && c.pointers[|c.vertices|] == |c.indices|
    && (forall p :: 0 <= p < |c.indices| ==> c.indices[p] < |c.vertices|)
    && StrictlyAscending(c.vertices)
  }

  lemma {:induction false} AdjacentSteps(s: seq<U64>, i: nat, j: nat, strict: bool)
    requires i <= j < |s|
    requires forall k :: 0 <= k < |s| - 1 ==> if strict then s[k] < s[k + 1] else s[k] <= s[k + 1]
    ensures s[i] <= s[j] && (strict && i < j ==> s[i] < s[j])
    decreases j
  {
    if i < j {
      AdjacentSteps(s, i, j - 1, strict);
      assert if strict then s[j - 1] < s[j - 1 + 1] else s[j - 1] <= s[j - 1 + 1];
    }
  }

  /** Checking neighbouring entries accepts exactly the globally ordered
      images. */
  lemma ValidateExact(c: Csc)
    ensures Validate(c).Ok? <==> WellFormed(c)
  {
    if Validate(c).Ok? {
      forall i, j | 0 <= i < j < |c.pointers| ensures c.pointers[i] <= c.pointers[j] {
        AdjacentSteps(c.pointers, i, j, false);
      }
      forall i, j | 0 <= i < j < |c.vertices| ensures c.vertices[i] < c.vertices[j] {
        AdjacentSteps(c.vertices, i, j, true);
      }
    }
  }

  lemma CscWellFormed(rows: RowMap, vs: seq<U64>)
    requires StrictlyAscending(vs) && Closed(rows, vs) && Offset(rows, vs, |vs|) <= U64_MAX
    ensures WellFormed(CscOver(rows, vs))
  {
    var c := CscOver(rows, vs);
    forall i, j | 0 <= i < j < |c.pointers| ensures c.pointers[i] <= c.pointers[j] {
      OffsetMonotone(rows, vs, i, j);
    }
    IndicesInRange(rows, vs, |vs|);
    assert forall p :: 0 <= p < |c.indices| ==> c.indices[p] in c.indices;
  }

  // Decoding.

  /** The adjacency of the first `n` dictionary entries. */
  function DecodedUpto(c: Csc, n: nat): Adjacency
    requires WellFormed(c) && n <= |c.vertices|
  {
    if n == 0 then map[]
    else
      var rest := DecodedUpto(c, n - 1);
      var row := c.indices[c.pointers[n - 1]..c.pointers[n]];
      if row == [] then rest
      else rest[c.vertices[n - 1] := NamesOf(c, row)]
  }

  function NamesOf(c: Csc, row: seq<U64>): (r: set<U64>)
    requires forall i :: i in row ==> i < |c.vertices|
  {
    set i | i in row :: c.vertices[i]
  }

  /** `GraphBlasCsc::to_adjacency`, with its failure branches. */
  method ToAdjacency(c: Csc) returns (r: Result<Adjacency>)
    ensures WellFormed(c) ==> r == Ok(DecodedUpto(c, |c.vertices|))
  {
    if |c.pointers| != |c.vertices| + 1 { return Err(SparseKernel); }
    var adjacency: Adjacency := map[];
    for k := 0 to |c.vertices|
      invariant WellFormed(c) ==> adjacency == DecodedUpto(c, k)
    {
      var start, end := c.pointers[k], c.pointers[k + 1];
      if start > end || end > |c.indices| { return Err(SparseKernel); }
      var row := c.indices[start..end];
      if row != [] {
        var neighbors := DestinationNames(c, row);
        if neighbors.Err? { return Err(SparseKernel); }
        adjacency := adjacency[c.vertices[k] := neighbors.value];
      }
    }
    r := Ok(adjacency);
  }

  method DestinationNames(c: Csc, row: seq<U64>) returns (r: Result<set<U64>>)
    ensures r.Ok? <==> forall i :: i in row ==> i < |c.vertices|
    ensures r.Ok? ==> r.value == NamesOf(c, row)
  {
    var neighbors: set<U64> := {};
    for j := 0 to |row|
      invariant forall i :: i in row[..j] ==> i < |c.vertices|
      invariant neighbors == NamesOf(c, row[..j])
    {
      if row[j] >= |c.vertices| {
        assert row[j] in row;
        return Err(SparseKernel);
      }
      assert row[..j + 1] == row[..j] + [row[j]];
      neighbors := neighbors + {c.vertices[row[j]]};
    }
    assert row[..|row|] == row;
    r := Ok(neighbors);
  }

  lemma OrdinalNames(vs: seq<U64>, dsts: seq<U64>, c: Csc)
    requires StrictlyAscending(vs) && Elems(dsts) <= Elems(vs) && c.vertices == vs
    ensures forall i :: i in Ordinals(vs, dsts) ==> i < |vs|
    ensures NamesOf(c, Ordinals(vs, dsts)) == Elems(dsts)
  {
    var o := Ordinals(vs, dsts);
    OrdinalsExact(vs, dsts);
    forall d | d in dsts ensures d in NamesOf(c, o) {
      var i :| 0 <= i < |dsts| && dsts[i] == d;
      assert o[i] in o;
    }
  }

  ghost function AdjacencyUpto(rows: RowMap, vs: seq<U64>): Adjacency {
    map s | s in rows && s in vs && rows[s] != [] :: Elems(rows[s])
  }

  lemma AdjacencySnoc(rows: RowMap, vs: seq<U64>, v: U64)
    ensures AdjacencyUpto(rows, vs + [v])
         == if Row(rows, v) == [] then AdjacencyUpto(rows, vs)
            else AdjacencyUpto(rows, vs)[v := Elems(Row(rows, v))]
  {
  }

  lemma AdjacencyNone(rows: RowMap)
    ensures AdjacencyUpto(rows, []) == map[]
  {
  }

  lemma SliceSnoc(vs: seq<U64>, k: nat)
    requires k < |vs|
    ensures vs[..k + 1] == vs[..k] + [vs[k]]
  {
  }

  /** The k-th index window names exactly the k-th row. */
  lemma DecodedRow(rows: RowMap, vs: seq<U64>, k: nat)
    requires StrictlyAscending(vs) && Closed(rows, vs) && Offset(rows, vs, |vs|) <= U64_MAX && k < |vs|
    requires WellFormed(CscOver(rows, vs))
    ensures var c := CscOver(rows, vs); var row := c.indices[c.pointers[k]..c.pointers[k + 1]];
            && c.vertices == vs
            && |row| == |Row(rows, vs[k])|
            && (forall i :: i in row ==> i < |vs|)
            && NamesOf(c, row) == Elems(Row(rows, vs[k]))
  {
    RowWindow(rows, vs, k);
    RowInside(rows, vs, k);
    OrdinalNames(vs, Row(rows, vs[k]), CscOver(rows, vs));
  }

  lemma {:induction false} DecodedRows(rows: RowMap, vs: seq<U64>, n: nat)
    requires StrictlyAscending(vs) && Closed(rows, vs) && Offset(rows, vs, |vs|) <= U64_MAX && n <= |vs|
    requires WellFormed(CscOver(rows, vs))
    ensures DecodedUpto(CscOver(rows, vs), n) == AdjacencyUpto(rows, vs[..n])
  {
    hide StrictlyAscending;
    hide Closed;
    hide CscOver;
    hide AdjacencyUpto;
    hide NamesOf;
    if n == 0 {
      assert AdjacencyUpto(rows, []) == map[] by { AdjacencyNone(rows); }
    } else {
      var v := vs[n - 1];
      DecodedRows(rows, vs, n - 1);
      DecodedRow(rows, vs, n - 1);
      AdjacencySnoc(rows, vs[..n - 1], v);
      SliceSnoc(vs, n - 1);
    }
  }

  lemma AdjacencyComplete(rows: RowMap, vs: seq<U64>)
    requires Normal(rows) && rows.Keys <= Elems(vs)
    ensures AdjacencyUpto(rows, vs) == AdjacencyOf(Edges(rows))
  {
    hide AdjacencyOf;
    hide Edges;
    NormalAdjacency(rows);
    assert forall s :: s in rows ==> s in Elems(vs);
    assert AdjacencyUpto(rows, vs) == map s | s in rows :: Elems(rows[s]);
  }

  /** Decoding the image of normal rows gives back exactly their edges. */
  lemma DecodeInverts(rows: RowMap, vs: seq<U64>)
    requires Normal(rows) && StrictlyAscending(vs) && Closed(rows, vs) && Offset(rows, vs, |vs|) <= U64_MAX
    requires rows.Keys <= Elems(vs)
    ensures WellFormed(CscOver(rows, vs))
    ensures DecodedUpto(CscOver(rows, vs), |vs|) == AdjacencyOf(Edges(rows))
  {
    hide *;
    CscWellFormed(rows, vs);
    DecodedRows(rows, vs, |vs|);
    assert vs[..|vs|] == vs;
    AdjacencyComplete(rows, vs);
  }

  // The image of a row map over its own dictionary.

  function EdgeTotal(rows: RowMap): nat {
    Offset(rows, DictionaryOf(rows), |DictionaryOf(rows)|)
  }

  function CscOf(rows: RowMap): Csc
    requires EdgeTotal(rows) <= U64_MAX
  {
    CscOver(rows, DictionaryOf(rows))
  }

  lemma NormalTotal(rows: RowMap)
    requires Normal(rows)
    ensures EdgeTotal(rows) == |Edges(rows)|
  {
    NormalEdgeCount(rows, DictionaryOf(rows));
  }

  /** The image of normal rows passes validation, holds one index per distinct
      edge and decodes to exactly the adjacency of those edges. */
  lemma CscFaithful(rows: RowMap)
    requires Normal(rows) && |Edges(rows)| <= U64_MAX
    ensures EdgeTotal(rows) == |Edges(rows)| == |CscOf(rows).indices|
    ensures Validate(CscOf(rows)).Ok? && WellFormed(CscOf(rows))
    ensures DecodedUpto(CscOf(rows), |CscOf(rows).vertices|) == AdjacencyOf(Edges(rows))
  {
    hide Edges;
    hide Listing;
    NormalTotal(rows);
    var vs := DictionaryOf(rows);
    assert rows.Keys <= Elems(vs);
    DecodeInverts(rows, vs);
    ValidateExact(CscOf(rows));
  }

  /** The image depends only on the set of edges: neither the order of the
      pushes nor their multiplicity shows. */
  lemma CscCanonical(a: RowMap, b: RowMap)
    requires Normal(a) && Normal(b) && Edges(a) == Edges(b) && |Edges(a)| <= U64_MAX
    ensures EdgeTotal(a) <= U64_MAX && EdgeTotal(b) <= U64_MAX && CscOf(a) == CscOf(b)
  {
    NormalUnique(a, b);
    NormalTotal(a);
  }
}
