/** Pushed edges grouped by source, and their normal form: every row sorted and
    deduplicated, no empty row. */
module Rows {
  import opened Basics
  import opened Ascending

  type Edge = (U64, U64)
  type RowMap = map<U64, seq<U64>>
  type Adjacency = map<U64, set<U64>>

  function Row(rows: RowMap, src: U64): seq<U64> {
    if src in rows then rows[src] else []
  }

  ghost function Edges(rows: RowMap): (r: set<Edge>)
    ensures forall e: Edge :: e in r <==> e.0 in rows && e.1 in rows[e.0]
  {
    set s, d | s in rows && d in rows[s] :: (s, d)
  }

  /** The adjacency a set of edges denotes: one entry for every source that has
      an edge, holding exactly its destinations. */
  ghost function AdjacencyOf(edges: set<Edge>): Adjacency {
    map s | s in Sources(edges) :: Targets(edges, s)
  }

  ghost function Sources(edges: set<Edge>): set<U64> {
    set e | e in edges :: e.0
  }

  ghost function Targets(edges: set<Edge>, s: U64): set<U64> {
    set e | e in edges && e.0 == s :: e.1
  }

  ghost predicate Normal(rows: RowMap) {
    forall s :: s in rows ==> rows[s] != [] && StrictlyAscending(rows[s])
  }

  function Pushed(rows: RowMap, src: U64, dst: U64): RowMap {
    rows[src := Row(rows, src) + [dst]]
  }

  ghost function PushAll(edges: seq<Edge>): RowMap {
    if edges == [] then map[]
    else
      var (src, dst) := edges[|edges| - 1];
      Pushed(PushAll(edges[..|edges| - 1]), src, dst)
  }

  /** Sum of the degrees of the first `n` listed vertices. */
  function Offset(rows: RowMap, vs: seq<U64>, n: nat): nat
    requires n <= |vs|
  {
    if n == 0 then 0 else Offset(rows, vs, n - 1) + |Row(rows, vs[n - 1])|
  }

  lemma {:induction false} OffsetMonotone(rows: RowMap, vs: seq<U64>, i: nat, j: nat)
    requires i <= j <= |vs|
    ensures Offset(rows, vs, i) <= Offset(rows, vs, j)
  {
    if i < j { OffsetMonotone(rows, vs, i, j - 1); }
  }

  /** Pushing keeps exactly the pushed edges, and never leaves an empty row. */
  lemma {:induction false} PushAllEdges(edges: seq<Edge>)
    ensures Edges(PushAll(edges)) == Elems(edges)
    ensures forall s :: s in PushAll(edges) ==> PushAll(edges)[s] != []
  {
    if edges != [] {
      var front, last := edges[..|edges| - 1], edges[|edges| - 1];
      PushAllEdges(front);
      var before, after := PushAll(front), PushAll(edges);
      assert edges == front + [last];
      assert after == Pushed(before, last.0, last.1);
      forall e: Edge ensures e in Edges(after) <==> e in Edges(before) || e == last {
        assert e in Edges(after) <==> e.0 in after && e.1 in after[e.0];
        assert e in Edges(before) <==> e.0 in before && e.1 in before[e.0];
      }
    }
  }

  /** Normal rows are determined by the edges they hold. */
  lemma NormalUnique(a: RowMap, b: RowMap)
    requires Normal(a) && Normal(b) && Edges(a) == Edges(b)
    ensures a == b
  {
    forall s ensures s in a <==> s in b {
      if s in a { assert (s, a[s][0]) in Edges(a); assert (s, a[s][0]) in Edges(b); }
      if s in b { assert (s, b[s][0]) in Edges(b); assert (s, b[s][0]) in Edges(a); }
    }
    forall s | s in a ensures a[s] == b[s] {
      forall d ensures d in a[s] <==> d in b[s] {
        assert (s, d) in Edges(a) <==> d in a[s];
        assert (s, d) in Edges(b) <==> d in b[s];
      }
      AscendingUnique(a[s], b[s]);
    }
  }

  ghost function RowEdges(row: seq<U64>, s: U64): (r: set<Edge>)
    ensures forall e: Edge :: e in r <==> e.0 == s && e.1 in row
  {
    set d | d in row :: (s, d)
  }

  lemma RowEdgeCount(row: seq<U64>, s: U64)
    requires StrictlyAscending(row)
    ensures |RowEdges(row, s)| == |row|
  {
    var pairs: seq<Edge> := seq(|row|, i requires 0 <= i < |row| => (s, row[i]));
    NoDupCard(pairs);
    forall e: Edge ensures e in Elems(pairs) <==> e in RowEdges(row, s) {
      if e.0 == s && e.1 in row {
        var i :| 0 <= i < |row| && row[i] == e.1;
        assert pairs[i] == e;
      }
    }
    assert Elems(pairs) == RowEdges(row, s);
  }

  ghost function EdgesFrom(rows: RowMap, keys: set<U64>): set<Edge> {
    set e | e in Edges(rows) && e.0 in keys
  }

  lemma EdgesFromOne(rows: RowMap, keys: set<U64>, src: U64)
    requires Normal(rows) && src !in keys
    ensures |EdgesFrom(rows, keys + {src})| == |EdgesFrom(rows, keys)| + |Row(rows, src)|
  {
    var row := Row(rows, src);
    RowEdgeCount(row, src);
    var own := RowEdges(row, src);
    var before, after := EdgesFrom(rows, keys), EdgesFrom(rows, keys + {src});
    forall e: Edge ensures e in after <==> e in before || e in own {
      assert e in Edges(rows) <==> e.0 in rows && e.1 in rows[e.0];
    }
    assert after == before + own;
    assert before !! own;
  }

  lemma {:induction false} EdgeCountUpto(rows: RowMap, keys: seq<U64>, n: nat)
    requires Normal(rows) && StrictlyAscending(keys) && n <= |keys|
    ensures |EdgesFrom(rows, Elems(keys[..n]))| == Offset(rows, keys, n)
  {
    if n == 0 {
      assert EdgesFrom(rows, Elems(keys[..n])) == {};
    } else {
      EdgeCountUpto(rows, keys, n - 1);
      assert keys[..n] == keys[..n - 1] + [keys[n - 1]];
      assert Elems(keys[..n]) == Elems(keys[..n - 1]) + {keys[n - 1]};
      EdgesFromOne(rows, Elems(keys[..n - 1]), keys[n - 1]);
    }
  }

  /** The row lengths of normal rows add up to the number of distinct edges. */
  lemma NormalEdgeCount(rows: RowMap, keys: seq<U64>)
    requires Normal(rows) && StrictlyAscending(keys) && rows.Keys <= Elems(keys)
    ensures Offset(rows, keys, |keys|) == |Edges(rows)|
  {
    EdgeCountUpto(rows, keys, |keys|);
    assert keys[..|keys|] == keys;
    assert EdgesFrom(rows, Elems(keys)) == Edges(rows);
  }

  /** Adding the row of a new source adds exactly that row's edges. */
  lemma AddRow(kept: RowMap, src: U64, row: seq<U64>)
    requires Normal(kept) && src !in kept && row != [] && StrictlyAscending(row)
    ensures Normal(kept[src := row])
    ensures Edges(kept[src := row]) == Edges(kept) + RowEdges(row, src)
    ensures |Edges(kept[src := row])| == |Edges(kept)| + |row|
  {
    hide Edges;
    RowEdgeCount(row, src);
    assert Edges(kept) !! RowEdges(row, src);
    assert Edges(kept[src := row]) == Edges(kept) + RowEdges(row, src);
  }

  /** One visit of the `retain` closure: sort and deduplicate the row, and add
      its length to the saturating count of `sum` edges so far. */
  method NormalizeRow(row: seq<U64>, live: U64, ghost sum: nat) returns (r: seq<U64>, live': U64)
    requires live == Min(sum, U64_MAX)
    ensures StrictlyAscending(r) && Elems(r) == Elems(row)
    ensures live' == Min(sum + |r|, U64_MAX)
  {
    r := Dedup(SortUnstable(row));
    live' := SaturatingAdd(live, |r|);
    SortDedupIsListing(row);
  }

  method SourcesInOrder(rows: RowMap) returns (keys: seq<U64>)
    ensures StrictlyAscending(keys) && Elems(keys) == rows.Keys
  {
    keys := Listing(rows.Keys);
  }

  lemma VisitSource(rows: RowMap, done: set<U64>, src: U64, row: seq<U64>)
    requires src in rows && Elems(row) == Elems(rows[src])
    ensures EdgesFrom(rows, done + {src}) == EdgesFrom(rows, done) + RowEdges(row, src)
    ensures row == [] ==> RowEdges(row, src) == {}
  {
    assert forall d :: d in row <==> d in Elems(rows[src]);
    forall e: Edge ensures e in EdgesFrom(rows, done + {src})
                      <==> e in EdgesFrom(rows, done) || e in RowEdges(row, src) {
      assert e in Edges(rows) <==> e.0 in rows && e.1 in rows[e.0];
    }
  }

  lemma NoneVisited(rows: RowMap)
    ensures Normal(map[]) && Edges(map[]) == EdgesFrom(rows, {}) == {}
    ensures Min(|Edges(map[])|, U64_MAX) == 0 && Elems<U64>([]) == {}
  {
    assert |Edges(map[])| == 0;
  }

  lemma VisitedSnoc(keys: seq<U64>, i: nat)
    requires StrictlyAscending(keys) && i < |keys|
    ensures keys[i] in Elems(keys) && keys[i] !in Elems(keys[..i])
    ensures Elems(keys[..i + 1]) == Elems(keys[..i]) + {keys[i]}
  {
    assert keys[..i + 1] == keys[..i] + [keys[i]];
  }

  lemma AllVisited(rows: RowMap, done: set<U64>)
    requires rows.Keys <= done
    ensures EdgesFrom(rows, done) == Edges(rows)
  {
  }

  /** The `retain` pass over the rows in source order. */
  method RetainNormalized(rows: RowMap) returns (kept: RowMap, live: U64)
    ensures Normal(kept) && Edges(kept) == Edges(rows)
    ensures live == Min(|Edges(kept)|, U64_MAX)
  {
    hide *;
    var keys := SourcesInOrder(rows);
    kept, live := map[], 0;
    ghost var done: set<U64> := {};
    NoneVisited(rows);
    for i := 0 to |keys|
      invariant done == Elems(keys[..i]) && kept.Keys <= done
      invariant Normal(kept) && Edges(kept) == EdgesFrom(rows, done)
      invariant live == Min(|Edges(kept)|, U64_MAX)
    {
      var src := keys[i];
      VisitedSnoc(keys, i);
      var row;
      row, live := NormalizeRow(rows[src], live, |Edges(kept)|);
      VisitSource(rows, done, src, row);
      done := done + {src};
      if row != [] {
        AddRow(kept, src, row);
        kept := kept[src := row];
      }
    }
    assert keys[..|keys|] == keys;
    AllVisited(rows, done);
  }

  class MatrixRows {
    var rows: RowMap
    var rawEdges: U64
    var liveEdges: U64

    constructor ()
      ensures rows == map[] && rawEdges == 0 && liveEdges == 0
    {
      rows, rawEdges, liveEdges := map[], 0, 0;
    }

    method Push(src: U64, dst: U64)
      modifies this
      ensures rows == Pushed(old(rows), src, dst)
      ensures rawEdges == SaturatingAdd(old(rawEdges), 1)
      ensures liveEdges == old(liveEdges)
    {
      rows := rows[src := Row(rows, src) + [dst]];
      rawEdges := SaturatingAdd(rawEdges, 1);
    }

    /** Sorts and deduplicates every row, drops empty rows and counts what is
        left; the count saturates like the original's. Together with
        `NormalUnique` the second clause determines the resulting rows. */
    method Normalize()
      modifies this
      ensures rawEdges == old(rawEdges)
      ensures Normal(rows) && Edges(rows) == Edges(old(rows))
      ensures liveEdges == Min(|Edges(rows)|, U64_MAX)
    {
      rows, liveEdges := RetainNormalized(rows);
    }

    /** The adjacency view handed to the sparse kernels. */
    function ToAdjacency(): Adjacency
      reads this
    {
      map s | s in rows :: Elems(rows[s])
    }
  }

  /** A normal row map read as an adjacency is the adjacency of its edges. */
  lemma NormalAdjacency(rows: RowMap)
    requires Normal(rows)
    ensures (map s | s in rows :: Elems(rows[s])) == AdjacencyOf(Edges(rows))
  {
    var adj := AdjacencyOf(Edges(rows));
    forall s ensures s in adj <==> s in rows {
      if s in rows { assert (s, rows[s][0]) in Edges(rows); }
    }
    forall s | s in rows ensures adj[s] == Elems(rows[s]) {
      forall d ensures d in adj[s] <==> d in rows[s] {
        assert (s, d) in Edges(rows) <==> d in rows[s];
        assert d in adj[s] <==> (s, d) in Edges(rows);
      }
    }
  }
}
