/** The edge changelog: every commit logs the final state of each edge it
    changes, and an index generation is patched from the retained entries. */
module Changelog {
  import opened Basics
  import opened Ascending
  import opened Rows
  import opened CscImage
  import opened CscBuild

  type Changes = map<Edge, bool>

  /** Final states applied to an edge set. */
  function Applied(edges: set<Edge>, m: Changes): (r: set<Edge>)
    ensures forall e :: e in r <==> if e in m then m[e] else e in edges
  {
    (set e | e in edges && e !in m) + (set e | e in m && m[e])
  }

  /** Later states win. */
  lemma AppliedTwice(edges: set<Edge>, m: Changes, n: Changes)
    ensures Applied(Applied(edges, m), n) == Applied(edges, m + n)
  {
    hide Applied;
    assert forall e :: e in Applied(Applied(edges, m), n) <==> e in Applied(edges, m + n);
  }

  /** Commit `s` (counting from one) made the changes `h[s - 1]`. */
  type History = seq<Changes>

  ghost function EdgesAt(h: History, s: nat): set<Edge>
    requires s <= |h|
  {
    if s == 0 then {} else Applied(EdgesAt(h, s - 1), h[s - 1])
  }

  /** A logged change, by commit and edge. */
  type LogEntry = (nat, Edge)

  /** The entries of commit `s` that are still there. */
  ghost function KeptAt(h: History, kept: set<LogEntry>, s: nat): Changes
    requires 1 <= s <= |h|
  {
    map e | e in h[s - 1] && (s, e) in kept :: h[s - 1][e]
  }

  /** Reading the entries of commits `lo + 1` to `hi` in order. */
  ghost function Resolved(h: History, kept: set<LogEntry>, lo: nat, hi: nat): Changes
    requires hi <= |h|
    decreases hi
  {
    if hi <= lo then map[] else Resolved(h, kept, lo, hi - 1) + KeptAt(h, kept, hi)
  }

  /** Every change of commits `lo + 1` to `hi` is still logged. */
  ghost predicate Covers(h: History, kept: set<LogEntry>, lo: nat, hi: nat)
    requires hi <= |h|
  {
    forall s, e :: lo < s <= hi && e in h[s - 1] ==> (s, e) in kept
  }

  lemma {:induction false} ResolvedIsDelta(h: History, kept: set<LogEntry>, lo: nat, hi: nat)
    requires lo <= hi <= |h| && Covers(h, kept, lo, hi)
    ensures Applied(EdgesAt(h, lo), Resolved(h, kept, lo, hi)) == EdgesAt(h, hi)
    decreases hi
  {
    hide Applied;
    if lo < hi {
      ResolvedIsDelta(h, kept, lo, hi - 1);
      assert KeptAt(h, kept, hi) == h[hi - 1];
      AppliedTwice(EdgesAt(h, lo), Resolved(h, kept, lo, hi - 1), h[hi - 1]);
    } else {
      assert forall e :: e in Applied(EdgesAt(h, lo), map[]) <==> e in EdgesAt(h, lo);
    }
  }

  // Patching a decoded generation.

  /** One resolved state applied to an adjacency; a source left without
      destinations is dropped. */
  function PatchedOne(adj: Adjacency, src: U64, dst: U64, there: bool): Adjacency {
    if there then adj[src := (if src in adj then adj[src] else {}) + {dst}]
    else if src !in adj then adj
    else if adj[src] - {dst} == {} then adj - {src}
    else adj[src := adj[src] - {dst}]
  }

  lemma PatchedOneIs(edges: set<Edge>, src: U64, dst: U64, there: bool)
    ensures PatchedOne(AdjacencyOf(edges), src, dst, there) == AdjacencyOf(Applied(edges, map[(src, dst) := there]))
  {
    var after := Applied(edges, map[(src, dst) := there]);
    var adj := AdjacencyOf(edges);
    TargetsAre(edges);
    TargetsAre(after);
    hide AdjacencyOf;
    PatchedPairs(adj, src, dst, there);
    forall s: U64, d: U64
      ensures (s in PatchedOne(adj, src, dst, there) && d in PatchedOne(adj, src, dst, there)[s])
         <==> (s in AdjacencyOf(after) && d in AdjacencyOf(after)[s])
    {
      assert (s, d) in after <==> if (s, d) == (src, dst) then there else (s, d) in edges;
    }
    hide PatchedOne, Applied;
    SameAdjacency(PatchedOne(adj, src, dst, there), AdjacencyOf(after));
  }

  lemma PatchedPairs(adj: Adjacency, src: U64, dst: U64, there: bool)
    requires forall s :: s in adj ==> adj[s] != {}
    ensures var r := PatchedOne(adj, src, dst, there);
            && (forall s :: s in r ==> r[s] != {})
            && (forall s: U64, d: U64 ::
                  (s in r && d in r[s]) <==> if s == src && d == dst then there else s in adj && d in adj[s])
  {
    var r := PatchedOne(adj, src, dst, there);
    forall s | s in r ensures r[s] != {} {
      if s == src && there { assert dst in r[s]; }
    }
    forall s: U64, d: U64
      ensures (s in r && d in r[s]) <==> if s == src && d == dst then there else s in adj && d in adj[s]
    {
      if s == src && s in adj { assert d in adj[s] && d != dst ==> d in adj[s] - {dst}; }
    }
  }

  /** What an adjacency of edges holds. */
  lemma TargetsAre(edges: set<Edge>)
    ensures forall s: U64, d: U64 :: (s in AdjacencyOf(edges) && d in AdjacencyOf(edges)[s]) <==> (s, d) in edges
    ensures forall s :: s in AdjacencyOf(edges) ==> AdjacencyOf(edges)[s] != {}
  {
    var adj := AdjacencyOf(edges);
    forall s: U64, d: U64 ensures (s in adj && d in adj[s]) <==> (s, d) in edges {
      if (s, d) in edges {
        assert (s, d).0 == s && (s, d).1 == d;
        assert s in Sources(edges) && d in Targets(edges, s);
      }
    }
    forall s | s in adj ensures adj[s] != {} {
      var e :| e in edges && e.0 == s;
      assert e.1 in Targets(edges, s);
    }
  }

  /** Without empty sources an adjacency is determined by its pairs. */
  lemma SameAdjacency(a: Adjacency, b: Adjacency)
    requires forall s :: s in a ==> a[s] != {}
    requires forall s :: s in b ==> b[s] != {}
    requires forall s: U64, d: U64 :: (s in a && d in a[s]) <==> (s in b && d in b[s])
    ensures a == b
  {
    forall s: U64 ensures s in a <==> s in b {
      if s in a { var d :| d in a[s]; assert s in b; }
      if s in b { var d :| d in b[s]; assert s in a; }
    }
    forall s | s in a ensures a[s] == b[s] {
      assert forall d :: d in a[s] <==> d in b[s];
    }
  }

  /** The overlay loop of the incremental build, in any order. */
  method Patch(adj: Adjacency, overlay: Changes, ghost edges: set<Edge>) returns (r: Adjacency)
    requires adj == AdjacencyOf(edges)
    ensures r == AdjacencyOf(Applied(edges, overlay))
  {
    hide AdjacencyOf, Applied;
    r := adj;
    var left := overlay.Keys;
    ghost var done: Changes := map[];
    assert Applied(edges, map[]) == edges by {
      assert forall e :: e in Applied(edges, map[]) <==> e in edges;
    }
    while left != {}
      invariant left <= overlay.Keys && done == overlay - left
      invariant r == AdjacencyOf(Applied(edges, done))
      decreases |left|
    {
      var e :| e in left;
      PatchedOneIs(Applied(edges, done), e.0, e.1, overlay[e]);
      AppliedTwice(edges, done, map[e := overlay[e]]);
      assert (e.0, e.1) == e;
      assert done + map[e := overlay[e]] == overlay - (left - {e});
      r := PatchedOne(r, e.0, e.1, overlay[e]);
      left := left - {e};
      done := overlay - left;
    }
    assert overlay - left == overlay;
  }

  /** The incremental build encodes the very image the full build encodes: the
      previous generation patched with the retained delta gives the same
      dictionary, pointers and indices as the edges at the new sequence. */
  method IncrementalImage(previous: Csc, overlay: Changes, ghost h: History, ghost kept: set<LogEntry>, ghost lo: nat,
                          ghost hi: nat)
    returns (r: Result<Csc>)
    requires lo <= hi <= |h| && Covers(h, kept, lo, hi) && overlay == Resolved(h, kept, lo, hi)
    requires WellFormed(previous) && DecodedUpto(previous, |previous.vertices|) == AdjacencyOf(EdgesAt(h, lo))
    requires |EdgesAt(h, hi)| <= U64_MAX
    ensures var rows := RowsOf(AdjacencyOf(EdgesAt(h, hi)));
            && Normal(rows) && Edges(rows) == EdgesAt(h, hi) && EdgeTotal(rows) <= U64_MAX
            && (r.Ok? <==> |DictionaryOf(rows)| <= GRAPHBLAS_INDEX_MAX)
            && (r.Ok? ==> r.value == CscOf(rows))
  {
    hide *;
    var adj := ToAdjacency(previous);
    ResolvedIsDelta(h, kept, lo, hi);
    var patched := Patch(adj.value, overlay, EdgesAt(h, lo));
    RowsOfAdjacency(EdgesAt(h, hi));
    NormalTotal(RowsOf(AdjacencyOf(EdgesAt(h, hi))));
    r := AdjacencyToCsc(patched);
  }
}
