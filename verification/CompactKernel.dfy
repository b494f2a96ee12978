/** The compact traversal kernel: breadth-first search over ordinals, with flag
    arrays instead of sets, directly on the index image. */
module CompactKernel {
  import opened Basics
  import opened Ascending
  import opened Rows
  import opened CscImage
  import opened Reachability

  function Dim(c: Csc): nat { |c.vertices| }

  ghost function Decoded(c: Csc): Adjacency
    requires WellFormed(c)
  {
    DecodedUpto(c, Dim(c))
  }

  /** The stored row of an ordinal. */
  function RowAt(c: Csc, i: nat): (r: seq<U64>)
    requires WellFormed(c) && i < Dim(c)
    ensures forall k :: k in r ==> k < Dim(c)
  {
    assert c.pointers[i] <= c.pointers[i + 1] <= c.pointers[Dim(c)];
    c.indices[c.pointers[i]..c.pointers[i + 1]]
  }

  lemma OrdinalFits(c: Csc, i: nat)
    requires WellFormed(c) && i < Dim(c)
    ensures i <= U64_MAX
  {
    PositionBound(c.vertices, i);
  }

  /** The graph over ordinals. */
  ghost function OrdinalGraph(c: Csc): (g: Adjacency)
    requires WellFormed(c)
    ensures forall i: U64 :: i in g <==> i < Dim(c)
    ensures forall i: U64 :: i in g ==> g[i] == Elems(RowAt(c, i))
  {
    map i: U64 | 0 <= i < Dim(c) :: Elems(RowAt(c, i))
  }

  ghost predicate Below(c: Csc, s: set<U64>) { forall i :: i in s ==> i < Dim(c) }

  /** The vertices behind a set of ordinals. */
  ghost function Named(c: Csc, s: set<U64>): (r: set<U64>)
    requires Below(c, s)
    ensures forall v :: v in r <==> exists i :: i in s && c.vertices[i] == v
  {
    set i | i in s :: c.vertices[i]
  }

  lemma NamedIn(c: Csc, s: set<U64>, i: U64)
    requires WellFormed(c) && Below(c, s) && i < Dim(c)
    ensures c.vertices[i] in Named(c, s) <==> i in s
  {
  }

  lemma {:induction false} DecodedAt(c: Csc, n: nat, v: U64)
    requires WellFormed(c) && n <= Dim(c)
    ensures v in DecodedUpto(c, n) ==> exists i :: 0 <= i < n && c.vertices[i] == v
    ensures forall i :: 0 <= i < n && c.vertices[i] == v ==> Neighbors(DecodedUpto(c, n), v) == NamesOf(c, RowAt(c, i))
  {
    if n > 0 {
      DecodedAt(c, n - 1, v);
      if v == c.vertices[n - 1] {
        assert forall i :: 0 <= i < n - 1 ==> c.vertices[i] < v;
      }
    }
  }

  lemma NeighborNamed(c: Csc, i: U64, v: U64)
    requires WellFormed(c) && i < Dim(c)
    ensures v in Neighbors(Decoded(c), c.vertices[i]) <==>
            exists k: U64 :: k < Dim(c) && k in Neighbors(OrdinalGraph(c), i) && c.vertices[k] == v
  {
    hide WellFormed, DecodedUpto, RowAt;
    DecodedAt(c, Dim(c), c.vertices[i]);
    var row := RowAt(c, i);
    assert Neighbors(Decoded(c), c.vertices[i]) == NamesOf(c, row);
    assert Neighbors(OrdinalGraph(c), i) == Elems(row);
    if v in NamesOf(c, row) {
      var k :| k in row && c.vertices[k] == v;
      assert k in Elems(row);
    }
  }

  lemma StepBelow(c: Csc, s: set<U64>)
    requires WellFormed(c)
    ensures Below(c, Step(OrdinalGraph(c), s))
  {
    hide WellFormed, RowAt, Step;
    forall k | k in Step(OrdinalGraph(c), s) ensures k < Dim(c) {
      var i :| i in s && k in Neighbors(OrdinalGraph(c), i);
      assert k in RowAt(c, i);
    }
  }

  lemma StepToOrdinals(c: Csc, s: set<U64>, v: U64)
    requires WellFormed(c) && Below(c, s) && Below(c, Step(OrdinalGraph(c), s))
    requires v in Step(Decoded(c), Named(c, s))
    ensures v in Named(c, Step(OrdinalGraph(c), s))
  {
    hide WellFormed, Step, Decoded, OrdinalGraph, Neighbors, Named;
    var u :| u in Named(c, s) && v in Neighbors(Decoded(c), u);
    var i :| i in s && c.vertices[i] == u;
    NeighborNamed(c, i, v);
    var k: U64 :| k < Dim(c) && k in Neighbors(OrdinalGraph(c), i) && c.vertices[k] == v;
  }

  lemma StepToVertices(c: Csc, s: set<U64>, v: U64)
    requires WellFormed(c) && Below(c, s) && Below(c, Step(OrdinalGraph(c), s))
    requires v in Named(c, Step(OrdinalGraph(c), s))
    ensures v in Step(Decoded(c), Named(c, s))
  {
    hide WellFormed, Step, Decoded, OrdinalGraph, Neighbors, Named;
    var k :| k in Step(OrdinalGraph(c), s) && c.vertices[k] == v;
    var i :| i in s && k in Neighbors(OrdinalGraph(c), i);
    NeighborNamed(c, i, v);
    assert c.vertices[i] in Named(c, s);
  }

  /** A step over vertices is a step over ordinals. */
  lemma StepNamed(c: Csc, s: set<U64>)
    requires WellFormed(c) && Below(c, s)
    ensures Below(c, Step(OrdinalGraph(c), s))
    ensures Step(Decoded(c), Named(c, s)) == Named(c, Step(OrdinalGraph(c), s))
  {
    hide *;
    StepBelow(c, s);
    var a, b := Step(Decoded(c), Named(c, s)), Named(c, Step(OrdinalGraph(c), s));
    forall v ensures v in a <==> v in b {
      if v in a { StepToOrdinals(c, s, v); }
      if v in b { StepToVertices(c, s, v); }
    }
  }

  lemma {:induction false} LevelNamed(c: Csc, s: set<U64>, n: nat)
    requires WellFormed(c) && Below(c, s)
    ensures Below(c, Level(OrdinalGraph(c), s, n))
    ensures Level(Decoded(c), Named(c, s), n) == Named(c, Level(OrdinalGraph(c), s, n))
  {
    if n > 0 {
      LevelNamed(c, s, n - 1);
      StepNamed(c, Level(OrdinalGraph(c), s, n - 1));
    }
  }

  lemma {:induction false} LevelsNamed(c: Csc, s: set<U64>, lo: nat, hi: nat)
    requires WellFormed(c) && Below(c, s)
    ensures Below(c, Levels(OrdinalGraph(c), s, lo, hi))
    ensures Levels(Decoded(c), Named(c, s), lo, hi) == Named(c, Levels(OrdinalGraph(c), s, lo, hi))
    decreases hi
  {
    hide Level, OrdinalGraph, DecodedUpto;
    if lo <= hi {
      LevelNamed(c, s, hi);
      if hi > 0 { LevelsNamed(c, s, lo, hi - 1); }
    }
  }

  // Flag arrays.

  /** The ordinals flagged in `flags`. */
  ghost function Flagged(flags: seq<bool>): (r: set<U64>)
    ensures forall i: U64 :: i in r <==> i < |flags| && flags[i]
  {
    set i: U64 | 0 <= i < |flags| && flags[i]
  }

  /** `marks` has this round's marker exactly at the entries of `next`, and only
      older markers elsewhere. */
  ghost predicate Marked(marks: seq<int>, next: seq<U64>, marker: int) {
    && (forall d :: 0 <= d < |marks| ==> marks[d] <= marker)
    && (forall d :: 0 <= d < |marks| ==> (marks[d] == marker <==> d in next))
    && (forall d :: d in next ==> d < |marks|)
  }

  /** The row loop: destinations neither skipped nor met in this round. */
  method ScatterRow(c: Csc, src: U64, skip: seq<bool>, marks: array<int>, marker: int, found: seq<U64>)
    returns (next: seq<U64>)
    requires WellFormed(c) && src < Dim(c) && |skip| == marks.Length == Dim(c)
    requires NoDup(found) && Marked(marks[..], found, marker)
    modifies marks
    ensures NoDup(next) && Marked(marks[..], next, marker)
    ensures Elems(next) == Elems(found) + (Elems(RowAt(c, src)) - Flagged(skip))
  {
    var row := RowAt(c, src);
    ghost var skipped := Flagged(skip);
    hide WellFormed, RowAt, Flagged, NoDup, Marked;
    next := found;
    for j := 0 to |row|
      invariant NoDup(next) && Marked(marks[..], next, marker)
      invariant Elems(next) == Elems(found) + (Elems(row[..j]) - skipped)
    {
      var dst := row[j];
      assert dst in row;
      RowSnoc(row, j, Elems(found), skipped);
      label Round:
      MarkedAt(marks[..], next, marker, dst);
      if dst < Dim(c) && !skip[dst] && marks[dst] != marker {
        MarkOne(marks[..], next, marker, dst);
        SnocNoDup(next, dst);
        marks[dst] := marker;
        assert marks[..] == old@Round(marks[..])[dst := marker];
        next := next + [dst];
      }
    }
    assert row[..|row|] == row;
  }

  lemma MarkedAt(marks: seq<int>, next: seq<U64>, marker: int, d: U64)
    requires Marked(marks, next, marker) && d < |marks|
    ensures marks[d] == marker <==> d in next
  {
  }

  lemma MarkOne(marks: seq<int>, next: seq<U64>, marker: int, d: U64)
    requires Marked(marks, next, marker) && d < |marks|
    ensures Marked(marks[d := marker], next + [d], marker)
  {
  }

  lemma RowSnoc(row: seq<U64>, j: nat, base: set<U64>, skip: set<U64>)
    requires j < |row|
    ensures base + (Elems(row[..j + 1]) - skip)
         == base + (Elems(row[..j]) - skip) + if row[j] in skip then {} else {row[j]}
  {
    assert row[..j + 1] == row[..j] + [row[j]];
  }

  lemma SnocNoDup(next: seq<U64>, d: U64)
    requires NoDup(next) && d !in next
    ensures NoDup(next + [d]) && Elems(next + [d]) == Elems(next) + {d}
  {
  }

  /** One round over the frontier. */
  method NextFrontier(c: Csc, frontier: seq<U64>, skip: seq<bool>, marks: array<int>, marker: int)
    returns (next: seq<U64>)
    requires WellFormed(c) && Below(c, Elems(frontier)) && |skip| == marks.Length == Dim(c)
    requires forall d :: 0 <= d < marks.Length ==> marks[d] < marker
    modifies marks
    ensures NoDup(next) && Elems(next) == Step(OrdinalGraph(c), Elems(frontier)) - Flagged(skip)
    ensures forall d :: 0 <= d < marks.Length ==> marks[d] <= marker
  {
    hide WellFormed, Step, OrdinalGraph, Flagged;
    var g := OrdinalGraph(c);
    next := [];
    StepNone(g);
    for i := 0 to |frontier|
      invariant NoDup(next) && Marked(marks[..], next, marker)
      invariant Elems(next) == Step(g, Elems(frontier[..i])) - Flagged(skip)
    {
      assert frontier[i] in Elems(frontier);
      next := ScatterRow(c, frontier[i], skip, marks, marker, next);
      assert Elems(frontier[..i + 1]) == Elems(frontier[..i]) + {frontier[i]};
      StepUnion(g, Elems(frontier[..i]), {frontier[i]});
      StepOne(g, frontier[i]);
      RowIsNeighbors(c, frontier[i]);
    }
    assert frontier[..|frontier|] == frontier;
  }

  lemma RowIsNeighbors(c: Csc, i: U64)
    requires WellFormed(c) && i < Dim(c)
    ensures Neighbors(OrdinalGraph(c), i) == Elems(RowAt(c, i))
  {
  }

  // The two traversals.

  /** The dictionary positions of the starting vertices that have one. */
  method StartOrdinals(c: Csc, starts: seq<U64>) returns (r: seq<U64>)
    requires WellFormed(c)
    ensures Below(c, Elems(r)) && NoDup(r)
    ensures Named(c, Elems(r)) == Elems(starts) * Elems(c.vertices)
  {
    var found := FindOrdinals(c, starts);
    SortDedupIsListing(found);
    r := SortDedup(found);
    AscendingNoDup(r);
    forall o ensures o in r <==> o in found {
      assert o in r <==> o in Elems(r);
      assert o in found <==> o in Elems(found);
    }
    NamedStarts(c, starts, r);
  }

  /** Exactly the ordinals of these vertices have been found. */
  ghost predicate FoundAll(c: Csc, found: seq<U64>, starts: seq<U64>) {
    && (forall o :: o in found ==> o < Dim(c))
    && (forall o: U64 :: o < Dim(c) ==> (o in found <==> c.vertices[o] in starts))
  }

  method FindOrdinals(c: Csc, starts: seq<U64>) returns (found: seq<U64>)
    requires WellFormed(c)
    ensures FoundAll(c, found, starts)
  {
    hide BinarySearch, WellFormed, FoundAll;
    found := [];
    NoneFound(c);
    for i := 0 to |starts|
      invariant FoundAll(c, found, starts[..i])
    {
      var ordinal := BinarySearch(c.vertices, starts[i]);
      FindNext(c, found, starts, i);
      if ordinal.Some? {
        OrdinalFits(c, ordinal.value);
        found := found + [ordinal.value];
      }
    }
    assert starts[..|starts|] == starts;
  }

  lemma NoneFound(c: Csc)
    ensures FoundAll(c, [], [])
  {
  }

  lemma FindNext(c: Csc, found: seq<U64>, starts: seq<U64>, i: nat)
    requires WellFormed(c) && i < |starts| && FoundAll(c, found, starts[..i])
    ensures match BinarySearch(c.vertices, starts[i])
            case Some(o) => o <= U64_MAX && FoundAll(c, found + [o], starts[..i + 1])
            case None => FoundAll(c, found, starts[..i + 1])
  {
    Distinct(c);
    BinarySearchExact(c.vertices, starts[i]);
    if BinarySearch(c.vertices, starts[i]).Some? { OrdinalFits(c, BinarySearch(c.vertices, starts[i]).value); }
    hide WellFormed, BinarySearch;
    assert starts[..i + 1] == starts[..i] + [starts[i]];
  }

  lemma Distinct(c: Csc)
    requires WellFormed(c)
    ensures StrictlyAscending(c.vertices)
  {
  }

  lemma NamedStarts(c: Csc, starts: seq<U64>, r: seq<U64>)
    requires WellFormed(c) && Below(c, Elems(r))
    requires forall o: U64 :: o < Dim(c) ==> (o in r <==> c.vertices[o] in starts)
    ensures Named(c, Elems(r)) == Elems(starts) * Elems(c.vertices)
  {
    forall v ensures v in Named(c, Elems(r)) <==> v in Elems(starts) * Elems(c.vertices) {
      if v in starts && v in c.vertices {
        var o :| 0 <= o < Dim(c) && c.vertices[o] == v;
        OrdinalFits(c, o);
        assert o in Elems(r);
      }
    }
  }

  method SetFlags(flags: array<bool>, ordinals: seq<U64>)
    requires forall o :: o in ordinals ==> o < flags.Length
    modifies flags
    ensures Flagged(flags[..]) == old(Flagged(flags[..])) + Elems(ordinals)
  {
    for i := 0 to |ordinals|
      invariant forall o: U64 :: o < flags.Length ==> (flags[o] <==> old(flags[o]) || o in ordinals[..i])
    {
      assert ordinals[i] in ordinals;
      flags[ordinals[i]] := true;
    }
    assert ordinals[..|ordinals|] == ordinals;
  }

  /** `enumerate().filter_map(..)`: the vertices flagged in one array and not in
      the other, in dictionary order. */
  method Collect(c: Csc, yes: seq<bool>, no: seq<bool>) returns (r: seq<U64>)
    requires WellFormed(c) && |yes| == |no| == Dim(c)
    ensures StrictlyAscending(r)
    ensures Below(c, Flagged(yes) - Flagged(no)) && Elems(r) == Named(c, Flagged(yes) - Flagged(no))
  {
    r := [];
    for i := 0 to Dim(c)
      invariant StrictlyAscending(r)
      invariant forall v :: v in r <==> exists k :: 0 <= k < i && yes[k] && !no[k] && c.vertices[k] == v
    {
      if yes[i] && !no[i] {
        AscendingSnoc(r, c.vertices[i]);
        r := r + [c.vertices[i]];
      }
    }
    forall v ensures v in r <==> v in Named(c, Flagged(yes) - Flagged(no)) {
      if v in r {
        var k :| 0 <= k < Dim(c) && yes[k] && !no[k] && c.vertices[k] == v;
        OrdinalFits(c, k);
        assert k in Flagged(yes) - Flagged(no);
      }
    }
  }

  lemma AscendingSnoc(r: seq<U64>, m: U64)
    requires StrictlyAscending(r) && forall v :: v in r ==> v < m
    ensures StrictlyAscending(r + [m])
  {
    forall i, j | 0 <= i < j < |r + [m]| ensures (r + [m])[i] < (r + [m])[j] {
      assert (r + [m])[i] == r[i] && r[i] in r;
    }
  }

  /** Vertices outside the dictionary have no edges. */
  lemma StepFromKnown(c: Csc, s: set<U64>)
    requires WellFormed(c)
    ensures Step(Decoded(c), s) == Step(Decoded(c), s * Elems(c.vertices))
  {
    forall v | v in s && v !in Elems(c.vertices) ensures Neighbors(Decoded(c), v) == {} {
      DecodedAt(c, Dim(c), v);
    }
    hide Decoded, Neighbors;
    var known := s * Elems(c.vertices);
    forall d ensures d in Step(Decoded(c), s) <==> d in Step(Decoded(c), known) {
    }
  }

  lemma {:induction false} LevelFromKnown(c: Csc, s: set<U64>, n: nat)
    requires WellFormed(c) && n >= 1
    ensures Level(Decoded(c), s, n) == Level(Decoded(c), s * Elems(c.vertices), n)
  {
    hide Step, Decoded;
    if n == 1 {
      StepFromKnown(c, s);
      assert Level(Decoded(c), s, 0) == s;
    } else {
      LevelFromKnown(c, s, n - 1);
    }
  }

  lemma {:induction false} LevelsFromKnown(c: Csc, s: set<U64>, lo: nat, hi: nat)
    requires WellFormed(c) && lo >= 1
    ensures Levels(Decoded(c), s, lo, hi) == Levels(Decoded(c), s * Elems(c.vertices), lo, hi)
    decreases hi
  {
    hide Level, Decoded;
    if lo <= hi {
      LevelFromKnown(c, s, hi);
      LevelsFromKnown(c, s, lo, hi - 1);
    }
  }

  method NewFlags(n: nat) returns (flags: array<bool>)
    ensures fresh(flags) && flags.Length == n && Flagged(flags[..]) == {}
  {
    flags := new bool[n](_ => false);
  }

  method NewMarks(n: nat) returns (marks: array<int>)
    ensures fresh(marks) && marks.Length == n && forall d :: 0 <= d < n ==> marks[d] == 0
  {
    marks := new int[n](_ => 0);
  }

  /** From the flags of a finished search to the walks over vertices. */
  lemma SearchMeans(c: Csc, starts: set<U64>, ordinals: set<U64>, hops: nat, v: U64)
    requires WellFormed(c) && Below(c, ordinals) && Named(c, ordinals) == starts * Elems(c.vertices)
    requires Below(c, ordinals + Levels(OrdinalGraph(c), ordinals, 1, hops) - ordinals)
    ensures v in Named(c, ordinals + Levels(OrdinalGraph(c), ordinals, 1, hops) - ordinals)
       <==> v !in starts && Reaches(Decoded(c), starts, 1, hops, v)
  {
    hide Levels, Reaches, Decoded, OrdinalGraph;
    var found := Levels(OrdinalGraph(c), ordinals, 1, hops);
    LevelsNamed(c, ordinals, 1, hops);
    LevelsFromKnown(c, starts, 1, hops);
    ReachesIsLevels(Decoded(c), starts, 1, hops, v);
    assert v in Named(c, found) <==> Reaches(Decoded(c), starts, 1, hops, v);
    hide WellFormed;
    forall i | i in found && c.vertices[i] == v ensures i in ordinals <==> v in starts {
      NamedIn(c, ordinals, i);
      assert v in Elems(c.vertices);
    }
  }

  /** The compact kernel's `expand` finds exactly what the walks say, from any
      list of starting vertices, known or not. */
  method Expand(c: Csc, starts: seq<U64>, hops: Byte) returns (r: seq<U64>)
    requires WellFormed(c)
    ensures StrictlyAscending(r)
    ensures forall v :: v in r <==> v !in starts && Reaches(Decoded(c), Elems(starts), 1, hops, v)
  {
    hide WellFormed, Step, Levels, Level, Explored, OrdinalGraph, Named, Flagged, Reaches, Decoded;
    var ordinals := StartOrdinals(c, starts);
    ghost var g, s := OrdinalGraph(c), Elems(ordinals);
    assert forall o :: o in ordinals ==> o in Elems(ordinals);
    var startSeen := NewFlags(Dim(c));
    SetFlags(startSeen, ordinals);
    var seen := NewFlags(Dim(c));
    SetFlags(seen, ordinals);
    assert Flagged(seen[..]) == s == Flagged(startSeen[..]);
    var marks := NewMarks(Dim(c));
    var frontier := ordinals;
    ExploreStart(g, s);
    var depth := 0;
    while depth < hops
      invariant depth <= hops && Below(c, Elems(frontier))
      invariant Explored(g, s, depth, Flagged(seen[..]), Elems(frontier))
      invariant forall d :: 0 <= d < marks.Length ==> marks[d] <= depth
      invariant Flagged(startSeen[..]) == s
    {
      depth := depth + 1;
      ExploreNext(g, s, depth - 1, Flagged(seen[..]), Elems(frontier));
      StepBelow(c, Elems(frontier));
      var next := NextFrontier(c, frontier, seen[..], marks, depth);
      assert forall o :: o in next ==> o in Elems(next);
      SetFlags(seen, next);
      frontier := next;
      if frontier == [] { break; }
    }
    assert frontier == [] ==> Elems(frontier) == {};
    ExploredEnd(g, s, depth, Flagged(seen[..]), Elems(frontier), hops);
    r := Collect(c, seen[..], startSeen[..]);
    forall v ensures v in r <==> v !in starts && Reaches(Decoded(c), Elems(starts), 1, hops, v) {
      SearchMeans(c, Elems(starts), s, hops, v);
      assert v in r <==> v in Elems(r);
      assert v in starts <==> v in Elems(starts);
    }
  }

  lemma {:induction false} LevelsSplit(adj: Adjacency, starts: set<U64>, hi: nat)
    ensures Levels(adj, starts, 0, hi) == starts + Levels(adj, starts, 1, hi)
  {
    if hi > 0 { LevelsSplit(adj, starts, hi - 1); }
  }

  lemma RangeMeans(c: Csc, starts: set<U64>, ordinals: set<U64>, lo: nat, hi: nat, v: U64)
    requires WellFormed(c) && Below(c, ordinals) && Named(c, ordinals) == starts * Elems(c.vertices)
    requires Below(c, Levels(OrdinalGraph(c), ordinals, lo, hi))
    ensures v in Named(c, Levels(OrdinalGraph(c), ordinals, lo, hi))
       <==> v in c.vertices && Reaches(Decoded(c), starts, lo, hi, v)
  {
    hide Levels, Reaches, Decoded, OrdinalGraph;
    var known := starts * Elems(c.vertices);
    LevelsNamed(c, ordinals, lo, hi);
    LevelsNamed(c, ordinals, 1, hi);
    ReachesIsLevels(Decoded(c), starts, lo, hi, v);
    LevelsFromKnown(c, starts, 1, hi);
    if lo > 0 {
      LevelsFromKnown(c, starts, lo, hi);
    } else {
      LevelsSplit(Decoded(c), known, hi);
      LevelsSplit(Decoded(c), starts, hi);
    }
    hide WellFormed;
    assert v in c.vertices <==> v in Elems(c.vertices);
  }

  /** The compact kernel's `expand_range`: the dictionary vertices that a walk of
      `minHops` to `maxHops` edges ends in, the starts among them. */
  method ExpandRange(c: Csc, starts: seq<U64>, minHops: Byte, maxHops: Byte) returns (r: seq<U64>)
    requires WellFormed(c)
    ensures StrictlyAscending(r)
    ensures forall v :: v in r <==> v in c.vertices && Reaches(Decoded(c), Elems(starts), minHops, maxHops, v)
  {
    if minHops > maxHops {
      return [];
    }
    hide *;
    var ordinals := StartOrdinals(c, starts);
    var result := RangeFlags(c, ordinals, minHops, maxHops);
    var nobody := NewFlags(Dim(c));
    r := Collect(c, result[..], nobody[..]);
    ghost var g, s := OrdinalGraph(c), Elems(ordinals);
    assert Flagged(result[..]) - Flagged(nobody[..]) == Levels(g, s, minHops, maxHops);
    forall v ensures v in r <==> v in c.vertices && Reaches(Decoded(c), Elems(starts), minHops, maxHops, v) {
      RangeMeans(c, Elems(starts), s, minHops, maxHops, v);
      InElems(r, v);
    }
  }

  lemma InElems(s: seq<U64>, v: U64)
    ensures v in s <==> v in Elems(s)
  {
  }

  /** The depth loop, flagging every ordinal reached in range. */
  method RangeFlags(c: Csc, ordinals: seq<U64>, minHops: nat, maxHops: nat) returns (result: array<bool>)
    requires WellFormed(c) && Below(c, Elems(ordinals)) && minHops <= maxHops
    ensures fresh(result) && result.Length == Dim(c)
    ensures Flagged(result[..]) == Levels(OrdinalGraph(c), Elems(ordinals), minHops, maxHops)
  {
    hide WellFormed, Step, Levels, Level, OrdinalGraph, Flagged, NoDup;
    var frontier := ordinals;
    ghost var g, s := OrdinalGraph(c), Elems(ordinals);
    assert forall o :: o in frontier ==> o in Elems(frontier);
    result := NewFlags(Dim(c));
    if minHops == 0 { SetFlags(result, frontier); }
    LevelsStart(g, s, minHops);
    var marks := NewMarks(Dim(c));
    var nobody := NewFlags(Dim(c));
    var skip := nobody[..];
    var depth := 0;
    while depth < maxHops
      invariant depth <= maxHops && Below(c, Elems(frontier))
      invariant Elems(frontier) == Level(g, s, depth)
      invariant Flagged(result[..]) == Levels(g, s, minHops, depth)
      invariant forall d :: 0 <= d < marks.Length ==> marks[d] <= depth
    {
      depth := depth + 1;
      StepBelow(c, Elems(frontier));
      var next := NextFrontier(c, frontier, skip, marks, depth);
      LevelsNext(g, s, minHops, depth);
      assert forall o :: o in next ==> o in Elems(next);
      if depth >= minHops { SetFlags(result, next); }
      frontier := next;
      if next == [] { break; }
    }
    assert frontier == [] ==> Elems(frontier) == {};
    if depth < maxHops { BreakLosesNothing(g, s, minHops, depth, maxHops); }
  }

  lemma LevelsStart(adj: Adjacency, starts: set<U64>, lo: nat)
    ensures Levels(adj, starts, lo, 0) == if lo == 0 then starts else {}
    ensures Level(adj, starts, 0) == starts
  {
  }

  lemma LevelsNext(adj: Adjacency, starts: set<U64>, lo: nat, n: nat)
    requires n > 0
    ensures Level(adj, starts, n) == Step(adj, Level(adj, starts, n - 1))
    ensures Levels(adj, starts, lo, n) == if n < lo then {} else Levels(adj, starts, lo, n - 1) + Level(adj, starts, n)
    ensures n < lo ==> Levels(adj, starts, lo, n - 1) == {}
  {
  }
}
