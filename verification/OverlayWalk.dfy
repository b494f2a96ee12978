/** Traversal of a compiled image together with the changes made since it was
    built. */
module OverlayWalk {
  import opened Basics
  import opened Ascending
  import opened Rows
  import opened CscImage
  import opened Reachability
  import opened CompactKernel

  /** Per source and destination: whether the edge exists now. */
  type Overlay = map<U64, map<U64, bool>>

  function Changes(o: Overlay, src: U64): map<U64, bool> { if src in o then o[src] else map[] }

  function State(o: Overlay, src: U64, dst: U64): Option<bool> {
    if dst in Changes(o, src) then Some(Changes(o, src)[dst]) else None
  }

  /** The edge as it is now: the overlay decides, else the image does. */
  predicate Current(base: Adjacency, o: Overlay, src: U64, dst: U64) {
    match State(o, src, dst)
    case Some(exists_) => exists_
    case None => dst in Neighbors(base, src)
  }

  /** The image with the overlay applied. */
  ghost function Patched(base: Adjacency, o: Overlay): (r: Adjacency)
    ensures forall a, b :: b in Neighbors(r, a) <==> Current(base, o, a, b)
  {
    map a | a in base.Keys + o.Keys :: set b | b in Neighbors(base, a) + Changes(o, a).Keys && Current(base, o, a, b)
  }

  // `contains_edge` on the image.

  function ContainsEdge(c: Csc, src: U64, dst: U64): bool
    requires WellFormed(c)
  {
    var from, to := BinarySearch(c.vertices, src), BinarySearch(c.vertices, dst);
    from.Some? && to.Some? && exists k :: k in RowAt(c, from.value) && k == to.value
  }

  lemma ContainsEdgeExact(c: Csc, src: U64, dst: U64)
    requires WellFormed(c)
    ensures ContainsEdge(c, src, dst) <==> dst in Neighbors(Decoded(c), src)
  {
    BinarySearchExact(c.vertices, src);
    BinarySearchExact(c.vertices, dst);
    DecodedAt(c, Dim(c), src);
    hide BinarySearch, DecodedUpto, RowAt;
    var from := BinarySearch(c.vertices, src);
    if from.Some? {
      var row := RowAt(c, from.value);
      assert Neighbors(Decoded(c), src) == NamesOf(c, row);
      if dst in NamesOf(c, row) {
        var k :| k in row && c.vertices[k] == dst;
        assert BinarySearch(c.vertices, dst) == Some(k);
      }
    }
  }

  predicate CurrentIn(c: Csc, o: Overlay, src: U64, dst: U64)
    requires WellFormed(c)
  {
    match State(o, src, dst)
    case Some(exists_) => exists_
    case None => ContainsEdge(c, src, dst)
  }

  lemma CurrentInIs(c: Csc, o: Overlay, src: U64, dst: U64)
    requires WellFormed(c)
    ensures CurrentIn(c, o, src, dst) <==> Current(Decoded(c), o, src, dst)
  {
    ContainsEdgeExact(c, src, dst);
  }

  // One hop.

  /** Some frontier vertex has an edge to `d` added by the overlay. */
  ghost predicate Added(o: Overlay, from: set<U64>, d: U64) {
    exists a :: a in from && State(o, a, d) == Some(true)
  }

  ghost predicate Deleted(o: Overlay, from: set<U64>, d: U64) {
    exists a :: a in from && State(o, a, d) == Some(false)
  }

  /** What one hop computes: a frontier vertex reached again counts only if the
      overlay itself has the edge, because the kernel leaves out its starts. */
  ghost function Hop(base: Adjacency, o: Overlay, frontier: set<U64>): (r: set<U64>)
    ensures forall d :: d in r <==> Added(o, frontier, d) || (d !in frontier && d in Step(Patched(base, o), frontier))
  {
    var now := Step(Patched(base, o), frontier);
    AddedIsCurrent(base, o, frontier);
    set d | d in now && (Added(o, frontier, d) || d !in frontier)
  }

  lemma AddedIsCurrent(base: Adjacency, o: Overlay, frontier: set<U64>)
    ensures forall d :: Added(o, frontier, d) ==> d in Step(Patched(base, o), frontier)
  {
    forall d | Added(o, frontier, d) ensures d in Step(Patched(base, o), frontier) {
      var a :| a in frontier && State(o, a, d) == Some(true);
      assert d in Neighbors(Patched(base, o), a);
    }
  }

  /** The hop is a step of the patched graph exactly when no frontier vertex is
      reached again by unchanged edges alone. */
  lemma HopExactly(base: Adjacency, o: Overlay, frontier: set<U64>)
    ensures Hop(base, o, frontier) == Step(Patched(base, o), frontier)
       <==> forall d :: d in frontier && d in Step(Patched(base, o), frontier) ==> Added(o, frontier, d)
  {
    var hop, step := Hop(base, o, frontier), Step(Patched(base, o), frontier);
    AddedIsCurrent(base, o, frontier);
    if forall d :: d in frontier && d in step ==> Added(o, frontier, d) {
      assert forall d :: d in hop <==> d in step;
    }
    if hop == step {
      assert forall d :: d in step ==> d in hop;
    }
  }

  /** Part way through the changes: `next` after the destinations `added` and
      `deleted` so far, starting from `start`; deletions spare what is `live`. */
  ghost predicate Applied(live: set<U64>, start: set<U64>, added: set<U64>, deleted: set<U64>, next: set<U64>) {
    forall d :: d in next <==> d in added || (d in start && (d in live || d !in deleted))
  }

  function On(m: map<U64, bool>): set<U64> { set d | d in m && m[d] }

  function Off(m: map<U64, bool>): set<U64> { set d | d in m && !m[d] }

  lemma OneMore(m: map<U64, bool>, left: set<U64>, d: U64, added: set<U64>, deleted: set<U64>)
    requires d in m && d in left
    ensures added + On(m - (left - {d})) == added + On(m - left) + (if m[d] then {d} else {})
    ensures deleted + Off(m - (left - {d})) == deleted + Off(m - left) + (if m[d] then {} else {d})
  {
  }

  lemma AddOne(live: set<U64>, start: set<U64>, added: set<U64>, deleted: set<U64>, next: set<U64>, d: U64)
    requires Applied(live, start, added, deleted, next)
    ensures Applied(live, start, added + {d}, deleted, next + {d})
  {
  }

  lemma DeleteOne(live: set<U64>, start: set<U64>, added: set<U64>, deleted: set<U64>, next: set<U64>, d: U64)
    requires Applied(live, start, added, deleted, next) && added <= live
    ensures Applied(live, start, added, deleted + {d}, if d in live then next else next - {d})
  {
  }

  /** The inner loop over the changes of one frontier vertex. */
  method ApplyChanges(c: Csc, o: Overlay, frontier: set<U64>, src: U64, before: set<U64>,
                      ghost start: set<U64>, ghost added: set<U64>, ghost deleted: set<U64>)
    returns (next: set<U64>)
    requires WellFormed(c) && src in frontier && added <= Step(Patched(Decoded(c), o), frontier)
    requires Applied(Step(Patched(Decoded(c), o), frontier), start, added, deleted, before)
    ensures added + On(Changes(o, src)) <= Step(Patched(Decoded(c), o), frontier)
    ensures Applied(Step(Patched(Decoded(c), o), frontier), start, added + On(Changes(o, src)),
              deleted + Off(Changes(o, src)), next)
  {
    hide WellFormed, Decoded, Step, Patched, CurrentIn, Applied, On, Off;
    ghost var live := Step(Patched(Decoded(c), o), frontier);
    var m := Changes(o, src);
    next := before;
    var left := m.Keys;
    Nothing(m, added, deleted);
    while left != {}
      invariant left <= m.Keys
      invariant added + On(m - left) <= live
      invariant Applied(live, start, added + On(m - left), deleted + Off(m - left), next)
      decreases |left|
    {
      var dst :| dst in left;
      next := ApplyChange(c, o, frontier, src, dst, next, start, added + On(m - left), deleted + Off(m - left));
      OneMore(m, left, dst, added, deleted);
      left := left - {dst};
    }
    assert m - left == m;
  }

  /** One change: an added edge brings its destination in, a deleted one takes it
      out unless another frontier vertex still leads there. */
  method ApplyChange(c: Csc, o: Overlay, frontier: set<U64>, src: U64, dst: U64, before: set<U64>,
                     ghost start: set<U64>, ghost added: set<U64>, ghost deleted: set<U64>)
    returns (next: set<U64>)
    requires WellFormed(c) && src in frontier && dst in Changes(o, src)
    requires added <= Step(Patched(Decoded(c), o), frontier)
    requires Applied(Step(Patched(Decoded(c), o), frontier), start, added, deleted, before)
    ensures var there := Changes(o, src)[dst];
            var live := Step(Patched(Decoded(c), o), frontier);
            && added + (if there then {dst} else {}) <= live
            && Applied(live, start, added + (if there then {dst} else {}), deleted + (if there then {} else {dst}),
                next)
  {
    hide WellFormed, Decoded, Step, Patched, CurrentIn, Applied;
    ghost var live := Step(Patched(Decoded(c), o), frontier);
    LiveIs(c, o, frontier, dst);
    if Changes(o, src)[dst] {
      assert State(o, src, dst) == Some(true) && Added(o, frontier, dst);
      AddedIsCurrent(Decoded(c), o, frontier);
      AddOne(live, start, added, deleted, before, dst);
      next := before + {dst};
      assert deleted + {} == deleted;
    } else {
      DeleteOne(live, start, added, deleted, before, dst);
      next := before;
      if dst in next && !exists candidate :: candidate in frontier && CurrentIn(c, o, candidate, dst) {
        next := next - {dst};
      }
      assert next == if dst in live then before else before - {dst};
      assert added + {} == added;
    }
  }

  lemma Nothing(m: map<U64, bool>, added: set<U64>, deleted: set<U64>)
    ensures added + On(m - m.Keys) == added && deleted + Off(m - m.Keys) == deleted
  {
  }

  lemma LiveIs(c: Csc, o: Overlay, frontier: set<U64>, d: U64)
    requires WellFormed(c)
    ensures (exists a :: a in frontier && CurrentIn(c, o, a, d)) <==> d in Step(Patched(Decoded(c), o), frontier)
  {
    hide WellFormed, Decoded, Step, CurrentIn, Current, Patched;
    var g := Patched(Decoded(c), o);
    forall a ensures CurrentIn(c, o, a, d) <==> d in Neighbors(g, a) {
      CurrentInIs(c, o, a, d);
    }
  }

  ghost function AddedFrom(o: Overlay, from: set<U64>): (r: set<U64>)
    ensures forall d :: d in r <==> Added(o, from, d)
  {
    assert forall a, d :: d in On(Changes(o, a)) <==> State(o, a, d) == Some(true);
    set a, d | a in from && d in On(Changes(o, a)) :: d
  }

  ghost function DeletedFrom(o: Overlay, from: set<U64>): (r: set<U64>)
    ensures forall d :: d in r <==> Deleted(o, from, d)
  {
    assert forall a, d :: d in Off(Changes(o, a)) <==> State(o, a, d) == Some(false);
    set a, d | a in from && d in Off(Changes(o, a)) :: d
  }

  lemma OneMoreSource(o: Overlay, from: set<U64>, src: U64)
    ensures AddedFrom(o, from + {src}) == AddedFrom(o, from) + On(Changes(o, src))
    ensures DeletedFrom(o, from + {src}) == DeletedFrom(o, from) + Off(Changes(o, src))
  {
    forall d ensures d in AddedFrom(o, from + {src}) <==> d in AddedFrom(o, from) + On(Changes(o, src)) {
      assert src in from + {src};
      assert d in On(Changes(o, src)) <==> State(o, src, d) == Some(true);
    }
    forall d ensures d in DeletedFrom(o, from + {src}) <==> d in DeletedFrom(o, from) + Off(Changes(o, src)) {
      assert src in from + {src};
      assert d in Off(Changes(o, src)) <==> State(o, src, d) == Some(false);
    }
  }

  lemma NoSources(o: Overlay)
    ensures AddedFrom(o, {}) == {} && DeletedFrom(o, {}) == {}
  {
  }

  /** All changes applied: the hop. */
  lemma AppliedIsHop(base: Adjacency, o: Overlay, frontier: set<U64>, start: set<U64>, next: set<U64>)
    requires start == Step(base, frontier) - frontier
    requires Applied(Step(Patched(base, o), frontier), start, AddedFrom(o, frontier), DeletedFrom(o, frontier), next)
    ensures next == Hop(base, o, frontier)
  {
    hide Patched;
    var live := Step(Patched(base, o), frontier);
    forall d ensures d in next <==> Added(o, frontier, d) || (d !in frontier && d in live) {
      if d in start && !Deleted(o, frontier, d) {
        var a :| a in frontier && d in Neighbors(base, a);
        assert State(o, a, d) != Some(false);
        assert d in Neighbors(Patched(base, o), a);
      }
      if d in live && !Added(o, frontier, d) {
        var a :| a in frontier && d in Neighbors(Patched(base, o), a);
        assert State(o, a, d) != Some(true);
        assert d in Neighbors(base, a);
      }
    }
  }

  /** One hop from the frontier: the kernel's step without its starts, then the
      overlay's changes. */
  method HopWithOverlay(c: Csc, o: Overlay, frontier: set<U64>) returns (next: set<U64>)
    requires WellFormed(c)
    ensures next == Hop(Decoded(c), o, frontier)
  {
    hide *;
    var reached := CompactKernel.Expand(c, Listing(frontier), 1);
    ExpandOnce(c, frontier, reached);
    next := ApplyAll(c, o, frontier, Elems(reached));
    AppliedIsHop(Decoded(c), o, frontier, Elems(reached), next);
  }

  /** The outer loop over the frontier. */
  method ApplyAll(c: Csc, o: Overlay, frontier: set<U64>, start: set<U64>) returns (next: set<U64>)
    requires WellFormed(c)
    ensures Applied(Step(Patched(Decoded(c), o), frontier), start, AddedFrom(o, frontier), DeletedFrom(o, frontier),
              next)
  {
    hide *;
    next := start;
    ghost var live := Step(Patched(Decoded(c), o), frontier);
    NoSources(o);
    StartApplied(live, start);
    var left := frontier;
    assert frontier - left == {};
    while left != {}
      invariant left <= frontier
      invariant AddedFrom(o, frontier - left) <= live
      invariant Applied(live, start, AddedFrom(o, frontier - left), DeletedFrom(o, frontier - left), next)
      decreases |left|
    {
      var src :| src in left;
      next := ApplyChanges(c, o, frontier, src, next, start, AddedFrom(o, frontier - left),
          DeletedFrom(o, frontier - left));
      OneMoreSource(o, frontier - left, src);
      assert frontier - left + {src} == frontier - (left - {src});
      left := left - {src};
    }
    assert frontier - left == frontier;
  }

  lemma StartApplied(live: set<U64>, start: set<U64>)
    ensures Applied(live, start, {}, {}, start)
  {
  }

  lemma ExpandOnce(c: Csc, frontier: set<U64>, reached: seq<U64>)
    requires WellFormed(c)
    requires forall v :: v in reached
              <==> v !in Listing(frontier) && Reaches(Decoded(c), Elems(Listing(frontier)), 1, 1, v)
    ensures Elems(reached) == Step(Decoded(c), frontier) - frontier
  {
    hide WellFormed, Decoded, Step, Reaches, Listing;
    var base := Decoded(c);
    forall v ensures v in reached <==> v in Step(base, frontier) && v !in frontier {
      ReachesIsLevels(base, frontier, 1, 1, v);
      LevelsNext(base, frontier, 1, 1);
      LevelsStart(base, frontier, 1);
      assert v in Listing(frontier) <==> v in Elems(Listing(frontier));
    }
  }

  // Whole traversals.

  ghost function HopLevel(base: Adjacency, o: Overlay, starts: set<U64>, n: nat): set<U64> {
    if n == 0 then starts else Hop(base, o, HopLevel(base, o, starts, n - 1))
  }

  ghost function HopLevels(base: Adjacency, o: Overlay, starts: set<U64>, lo: nat, hi: nat): set<U64>
    decreases hi
  {
    if hi == 0 then {}
    else HopLevels(base, o, starts, lo, hi - 1) + if lo <= hi then HopLevel(base, o, starts, hi) else {}
  }

  /** Every hop ends where some walk of that length ends. */
  lemma {:induction false} HopsAreWalks(base: Adjacency, o: Overlay, starts: set<U64>, n: nat)
    ensures HopLevel(base, o, starts, n) <= Level(Patched(base, o), starts, n)
  {
    hide Step, Patched;
    if n > 0 {
      HopsAreWalks(base, o, starts, n - 1);
      var h, l := HopLevel(base, o, starts, n - 1), Level(Patched(base, o), starts, n - 1);
      AddedIsCurrent(base, o, h);
      StepUnion(Patched(base, o), h, l);
      assert h + l == l;
    }
  }

  ghost predicate FirstAt(adj: Adjacency, starts: set<U64>, n: nat, v: U64) {
    AtLevel(adj, starts, n, v) && forall m :: 0 <= m < n ==> !AtLevel(adj, starts, m, v)
  }

  lemma {:induction false} FirstExists(adj: Adjacency, starts: set<U64>, n: nat, v: U64) returns (m: nat)
    requires AtLevel(adj, starts, n, v)
    ensures m <= n && FirstAt(adj, starts, m, v)
  {
    if k :| 0 <= k < n && AtLevel(adj, starts, k, v) {
      m := FirstExists(adj, starts, k, v);
    } else {
      m := n;
    }
  }

  lemma NextLevel(adj: Adjacency, starts: set<U64>, n: nat, u: U64, v: U64)
    requires AtLevel(adj, starts, n, u) && v in Neighbors(adj, u)
    ensures AtLevel(adj, starts, n + 1, v)
  {
  }

  /** A vertex is found in the hop of its distance. */
  lemma {:induction false} FoundAtDistance(base: Adjacency, o: Overlay, starts: set<U64>, n: nat, v: U64)
    requires FirstAt(Patched(base, o), starts, n, v)
    ensures v in HopLevel(base, o, starts, n)
  {
    hide Step, Patched, Level, HopLevel, Neighbors, Hop;
    var adj := Patched(base, o);
    LevelUnfolds(adj, starts, n, v);
    if n == 0 {
      HopsBegin(base, o, starts, 0);
    } else {
      HopsNext(base, o, starts, 0, n);
      var u :| u in Level(adj, starts, n - 1) && v in Neighbors(adj, u);
      forall m | 0 <= m < n - 1 ensures !AtLevel(adj, starts, m, u) {
        if AtLevel(adj, starts, m, u) { NextLevel(adj, starts, m, u, v); }
      }
      FoundAtDistance(base, o, starts, n - 1, u);
      HopsAreWalks(base, o, starts, n - 1);
      assert !AtLevel(adj, starts, n - 1, v);
      assert v in Step(adj, HopLevel(base, o, starts, n - 1));
    }
  }

  lemma {:induction false} HopLevelsAre(base: Adjacency, o: Overlay, starts: set<U64>, lo: nat, hi: nat, v: U64)
    ensures v in HopLevels(base, o, starts, lo, hi)
       <==> exists n :: lo <= n <= hi && n >= 1 && InHop(base, o, starts, n, v)
  {
    hide HopLevel, HopLevels, InHop;
    HopLevelsUnfold(base, o, starts, lo, hi, v);
    if hi > 0 { HopLevelsAre(base, o, starts, lo, hi - 1, v); }
  }

  lemma HopLevelsUnfold(base: Adjacency, o: Overlay, starts: set<U64>, lo: nat, hi: nat, v: U64)
    ensures v in HopLevels(base, o, starts, lo, hi) <==>
              hi > 0 && (v in HopLevels(base, o, starts, lo, hi - 1) || (lo <= hi && InHop(base, o, starts, hi, v)))
  {
    hide HopLevel;
  }

  ghost predicate InHop(base: Adjacency, o: Overlay, starts: set<U64>, n: nat, v: U64)
  {
    v in HopLevel(base, o, starts, n)
  }

  /** Nothing is invented, for any range. */
  lemma OverlaySound(base: Adjacency, o: Overlay, starts: set<U64>, lo: nat, hi: nat, v: U64)
    requires v in HopLevels(base, o, starts, lo, hi)
    ensures Reaches(Patched(base, o), starts, Max(lo, 1), hi, v)
  {
    hide HopLevel, HopLevels, Level, Patched, Walks;
    HopLevelsAre(base, o, starts, lo, hi, v);
    var n :| lo <= n <= hi && n >= 1 && InHop(base, o, starts, n, v);
    HopsAreWalks(base, o, starts, n);
    LevelIsWalks(Patched(base, o), starts, n, v);
  }

  /** From one hop up, everything reachable other than the starts is found. */
  lemma OverlayComplete(base: Adjacency, o: Overlay, starts: set<U64>, lo: nat, hi: nat, v: U64)
    requires lo <= 1 && v !in starts && Reaches(Patched(base, o), starts, 1, hi, v)
    ensures v in HopLevels(base, o, starts, lo, hi)
  {
    var adj := Patched(base, o);
    hide HopLevel, HopLevels, Patched, Walks;
    var n :| 1 <= n <= hi && Walks(adj, starts, n, v);
    LevelIsWalks(adj, starts, n, v);
    var m := FirstExists(adj, starts, n, v);
    assert m >= 1 by { assert AtLevel(adj, starts, 0, v) <==> v in starts; }
    FoundAtDistance(base, o, starts, m, v);
    HopLevelsAre(base, o, starts, lo, hi, v);
    assert InHop(base, o, starts, m, v);
  }

  // When nothing is lost.

  /** No vertex is the end of a walk of `n` edges and of one edge more, for any
      `n` below `hi`, unless the overlay added an edge to it from such a vertex.
      This speaks of the patched graph only. */
  ghost predicate NoReentry(base: Adjacency, o: Overlay, starts: set<U64>, hi: nat) {
    forall n, d :: 0 <= n < hi && Reenters(base, o, starts, n, d) ==> Added(o, Level(Patched(base, o), starts, n), d)
  }

  ghost predicate Reenters(base: Adjacency, o: Overlay, starts: set<U64>, n: nat, d: U64) {
    AtLevel(Patched(base, o), starts, n, d) && AtLevel(Patched(base, o), starts, n + 1, d)
  }

  /** Up to `hi` every hop ends exactly where the walks of that length end. */
  ghost predicate HopsExact(base: Adjacency, o: Overlay, starts: set<U64>, hi: nat) {
    forall n: nat :: n <= hi ==> HopLevel(base, o, starts, n) == Level(Patched(base, o), starts, n)
  }

  /** One more hop stays exact exactly if nothing re-enters there. */
  lemma NextHopExact(base: Adjacency, o: Overlay, starts: set<U64>, n: nat)
    requires HopLevel(base, o, starts, n) == Level(Patched(base, o), starts, n)
    ensures HopLevel(base, o, starts, n + 1) == Level(Patched(base, o), starts, n + 1)
       <==> forall d :: Reenters(base, o, starts, n, d) ==> Added(o, Level(Patched(base, o), starts, n), d)
  {
    hide Hop, Step, Patched, Level, Reenters, Added;
    var frontier := Level(Patched(base, o), starts, n);
    HopExactly(base, o, frontier);
    forall d ensures Reenters(base, o, starts, n, d) <==> d in frontier && d in Step(Patched(base, o), frontier) {
      ReentersIs(base, o, starts, n, d);
    }
    LevelsNext(Patched(base, o), starts, 1, n + 1);
  }

  lemma ReentersIs(base: Adjacency, o: Overlay, starts: set<U64>, n: nat, d: U64)
    ensures Reenters(base, o, starts, n, d) <==>
            d in Level(Patched(base, o), starts, n) && d in Step(Patched(base, o), Level(Patched(base, o), starts, n))
  {
    hide Step, Patched;
  }

  lemma {:induction false} HopsExactly(base: Adjacency, o: Overlay, starts: set<U64>, hi: nat)
    ensures HopsExact(base, o, starts, hi) <==> NoReentry(base, o, starts, hi)
  {
    hide HopLevel, Level, Patched, Added, Reenters;
    HopsStart(base, o, starts);
    if hi > 0 {
      HopsExactly(base, o, starts, hi - 1);
      if HopsExact(base, o, starts, hi - 1) {
        NextHopExact(base, o, starts, hi - 1);
      }
      assert NoReentry(base, o, starts, hi) ==> NoReentry(base, o, starts, hi - 1);
      assert HopsExact(base, o, starts, hi) ==> HopsExact(base, o, starts, hi - 1);
    }
  }

  lemma HopsStart(base: Adjacency, o: Overlay, starts: set<U64>)
    ensures HopLevel(base, o, starts, 0) == Level(Patched(base, o), starts, 0)
  {
  }

  /** The traversal answers the walks for every range within `hi`. */
  ghost predicate RangesExact(base: Adjacency, o: Overlay, starts: set<U64>, hi: nat) {
    forall lo: nat, m: nat, v :: 1 <= lo <= m <= hi ==>
      (v in HopLevels(base, o, starts, lo, m) <==> Reaches(Patched(base, o), starts, lo, m, v))
  }

  lemma ExactHopsExactRange(base: Adjacency, o: Overlay, starts: set<U64>, lo: nat, hi: nat, v: U64)
    requires HopsExact(base, o, starts, hi)
    ensures v in HopLevels(base, o, starts, lo, hi) <==> Reaches(Patched(base, o), starts, Max(lo, 1), hi, v)
  {
    hide HopLevel, Level, Patched, HopLevels, Walks;
    HopLevelsAre(base, o, starts, lo, hi, v);
    forall n: nat | n <= hi ensures InHop(base, o, starts, n, v) <==> Walks(Patched(base, o), starts, n, v) {
      LevelIsWalks(Patched(base, o), starts, n, v);
    }
  }

  lemma SingleRange(base: Adjacency, o: Overlay, starts: set<U64>, n: nat, v: U64)
    requires n >= 1
    ensures v in HopLevels(base, o, starts, n, n) <==> v in HopLevel(base, o, starts, n)
    ensures Reaches(Patched(base, o), starts, n, n, v) <==> v in Level(Patched(base, o), starts, n)
  {
    hide HopLevel, Level, Patched, HopLevels, Walks;
    HopLevelsAre(base, o, starts, n, n, v);
    assert InHop(base, o, starts, n, v) <==> v in HopLevel(base, o, starts, n);
    LevelIsWalks(Patched(base, o), starts, n, v);
  }

  /** The overlay traversal answers the walks of the patched graph, for every
      range of one to `hi` hops, if and only if nothing re-enters below `hi`. */
  lemma OverlayExactly(base: Adjacency, o: Overlay, starts: set<U64>, hi: nat)
    ensures RangesExact(base, o, starts, hi) <==> NoReentry(base, o, starts, hi)
  {
    hide HopLevel, Level, Patched, HopLevels, Reaches, NoReentry;
    HopsExactly(base, o, starts, hi);
    if HopsExact(base, o, starts, hi) {
      forall lo: nat, m: nat, v | 1 <= lo <= m <= hi
        ensures v in HopLevels(base, o, starts, lo, m) <==> Reaches(Patched(base, o), starts, lo, m, v)
      {
        ExactHopsExactRange(base, o, starts, lo, m, v);
      }
    }
    if RangesExact(base, o, starts, hi) {
      HopsStart(base, o, starts);
      forall n: nat | 1 <= n <= hi ensures HopLevel(base, o, starts, n) == Level(Patched(base, o), starts, n) {
        forall v ensures v in HopLevel(base, o, starts, n) <==> v in Level(Patched(base, o), starts, n) {
          SingleRange(base, o, starts, n, v);
        }
      }
    }
  }

  // From one hop up, starts included.

  lemma {:induction false} HopShift(base: Adjacency, o: Overlay, starts: set<U64>, n: nat)
    ensures HopLevel(base, o, starts, n + 1) == HopLevel(base, o, Hop(base, o, starts), n)
  {
    hide *;
    var first := Hop(base, o, starts);
    HopsNext(base, o, starts, 0, n + 1);
    if n > 0 {
      HopShift(base, o, starts, n - 1);
      HopsNext(base, o, first, 0, n);
    } else {
      HopsBegin(base, o, starts, 0);
      HopsBegin(base, o, first, 0);
    }
  }

  lemma FirstHop(base: Adjacency, o: Overlay, starts: set<U64>, lo: nat, hi: nat, v: U64)
    requires lo <= 1 <= hi
    ensures v in HopLevels(base, o, starts, lo, hi)
       <==> v in Hop(base, o, starts) || v in HopLevels(base, o, Hop(base, o, starts), 1, hi - 1)
  {
    hide Hop, HopLevels;
    var first := Hop(base, o, starts);
    HopLevelsAre(base, o, starts, lo, hi, v);
    HopLevelsAre(base, o, first, 1, hi - 1, v);
    HopShift(base, o, starts, 0);
    assert InHop(base, o, starts, 1, v) <==> v in first;
    forall n: nat ensures InHop(base, o, starts, n + 1, v) <==> InHop(base, o, first, n, v) {
      HopShift(base, o, starts, n);
    }
    hide InHop;
    if n :| lo <= n <= hi && n >= 1 && InHop(base, o, starts, n, v) {
      assert InHop(base, o, starts, (n - 1) + 1, v);
      assert n > 1 ==> InHop(base, o, first, n - 1, v);
    }
    if n :| 1 <= n <= hi - 1 && InHop(base, o, first, n, v) {
      assert InHop(base, o, starts, n + 1, v);
    }
  }

  /** With a lower bound of at most one hop the answer is exact for every vertex,
      starts included: the first hop, and whatever walks lead on from it. */
  lemma FromFirstHop(base: Adjacency, o: Overlay, starts: set<U64>, lo: nat, hi: nat, v: U64)
    requires lo <= 1 <= hi
    ensures v in HopLevels(base, o, starts, lo, hi)
       <==> v in Hop(base, o, starts) || Reaches(Patched(base, o), Hop(base, o, starts), 1, hi - 1, v)
  {
    hide Hop, HopLevels, Patched, Reaches;
    FirstHop(base, o, starts, lo, hi, v);
    var first := Hop(base, o, starts);
    if v in HopLevels(base, o, first, 1, hi - 1) { OverlaySound(base, o, first, 1, hi - 1, v); }
    if v !in first && Reaches(Patched(base, o), first, 1, hi - 1, v) { OverlayComplete(base, o, first, 1, hi - 1, v); }
  }

  /** So with such a bound the traversal answers the walks if and only if every
      start that some walk comes back to is in the first hop or led to from it. */
  lemma FromOneExactly(base: Adjacency, o: Overlay, starts: set<U64>, lo: nat, hi: nat)
    requires lo <= 1 <= hi
    ensures (forall v :: v in HopLevels(base, o, starts, lo, hi) <==> Reaches(Patched(base, o), starts, 1, hi, v))
       <==> (forall v :: v in starts && Reaches(Patched(base, o), starts, 1, hi, v) ==>
               v in Hop(base, o, starts) || Reaches(Patched(base, o), Hop(base, o, starts), 1, hi - 1, v))
  {
    hide Hop, HopLevels, Patched, Reaches;
    MaxOne(lo);
    forall v ensures v in HopLevels(base, o, starts, lo, hi)
                <==> v in Hop(base, o, starts) || Reaches(Patched(base, o), Hop(base, o, starts), 1, hi - 1, v) {
      FromFirstHop(base, o, starts, lo, hi, v);
    }
    forall v ensures v in HopLevels(base, o, starts, lo, hi) ==> Reaches(Patched(base, o), starts, 1, hi, v) {
      if v in HopLevels(base, o, starts, lo, hi) { OverlaySound(base, o, starts, lo, hi, v); }
    }
    forall v | v !in starts
      ensures Reaches(Patched(base, o), starts, 1, hi, v) ==> v in HopLevels(base, o, starts, lo, hi)
    {
      if Reaches(Patched(base, o), starts, 1, hi, v) { OverlayComplete(base, o, starts, lo, hi, v); }
    }
  }

  // Any single range.

  lemma {:induction false} HopCompose(base: Adjacency, o: Overlay, starts: set<U64>, a: nat, b: nat)
    ensures HopLevel(base, o, starts, a + b) == HopLevel(base, o, HopLevel(base, o, starts, a), b)
  {
    hide *;
    var mid := HopLevel(base, o, starts, a);
    if b == 0 {
      HopsBegin(base, o, mid, 0);
    } else {
      HopCompose(base, o, starts, a, b - 1);
      HopsNext(base, o, starts, 0, a + b);
      HopsNext(base, o, mid, 0, b);
    }
  }

  /** A range that starts higher is a range from one hop, begun later. */
  lemma RangeShift(base: Adjacency, o: Overlay, starts: set<U64>, lo: nat, hi: nat, v: U64)
    requires 1 <= lo <= hi
    ensures v in HopLevels(base, o, starts, lo, hi)
       <==> v in HopLevels(base, o, HopLevel(base, o, starts, lo - 1), 1, hi - lo + 1)
  {
    hide HopLevel, HopLevels;
    var mid := HopLevel(base, o, starts, lo - 1);
    HopLevelsAre(base, o, starts, lo, hi, v);
    HopLevelsAre(base, o, mid, 1, hi - lo + 1, v);
    forall n: nat ensures InHop(base, o, starts, lo - 1 + n, v) <==> InHop(base, o, mid, n, v) {
      HopCompose(base, o, starts, lo - 1, n);
    }
    hide InHop;
    if n :| lo <= n <= hi && n >= 1 && InHop(base, o, starts, n, v) {
      assert InHop(base, o, starts, lo - 1 + (n - lo + 1), v);
      assert InHop(base, o, mid, n - lo + 1, v);
    }
    if n :| 1 <= n <= hi - lo + 1 && n >= 1 && InHop(base, o, mid, n, v) {
      assert InHop(base, o, starts, lo - 1 + n, v);
    }
  }

  lemma HereOrFurther(adj: Adjacency, from: set<U64>, m: nat, v: U64)
    ensures Reaches(adj, from, 0, m, v) <==> v in from || Reaches(adj, from, 1, m, v)
  {
    hide Walks;
    WalksNowhere(adj, from, v);
  }

  /** In any range the answer is exactly what walks lead to from the hop at its
      lower bound. */
  lemma FromAnyHop(base: Adjacency, o: Overlay, starts: set<U64>, lo: nat, hi: nat, v: U64)
    requires 1 <= lo <= hi
    ensures v in HopLevels(base, o, starts, lo, hi)
       <==> Reaches(Patched(base, o), HopLevel(base, o, starts, lo), 0, hi - lo, v)
  {
    hide *;
    RangeShift(base, o, starts, lo, hi, v);
    FromFirstHop(base, o, HopLevel(base, o, starts, lo - 1), 1, hi - lo + 1, v);
    HopsNext(base, o, starts, 0, lo);
    HereOrFurther(Patched(base, o), HopLevel(base, o, starts, lo), hi - lo, v);
  }

  lemma {:induction false} LevelCompose(adj: Adjacency, starts: set<U64>, a: nat, b: nat)
    ensures Level(adj, starts, a + b) == Level(adj, Level(adj, starts, a), b)
  {
    hide Step;
    if b > 0 { LevelCompose(adj, starts, a, b - 1); }
  }

  lemma ReachesFromLevel(adj: Adjacency, starts: set<U64>, lo: nat, hi: nat, v: U64)
    requires lo <= hi
    ensures Reaches(adj, Level(adj, starts, lo), 0, hi - lo, v) <==> Reaches(adj, starts, lo, hi, v)
  {
    hide Level, Walks;
    var mid := Level(adj, starts, lo);
    forall n: nat ensures Walks(adj, mid, n, v) <==> Walks(adj, starts, lo + n, v) {
      LevelCompose(adj, starts, lo, n);
      LevelIsWalks(adj, mid, n, v);
      LevelIsWalks(adj, starts, lo + n, v);
    }
    if n :| lo <= n <= hi && Walks(adj, starts, n, v) {
      assert Walks(adj, starts, lo + (n - lo), v);
      assert Walks(adj, mid, n - lo, v);
    }
  }

  /** What the hop at the lower bound has lost. */
  ghost function Lost(base: Adjacency, o: Overlay, starts: set<U64>, n: nat): set<U64> {
    Level(Patched(base, o), starts, n) - HopLevel(base, o, starts, n)
  }

  lemma ReachesUnion(adj: Adjacency, a: set<U64>, b: set<U64>, m: nat, v: U64)
    ensures Reaches(adj, a + b, 0, m, v) <==> Reaches(adj, a, 0, m, v) || Reaches(adj, b, 0, m, v)
  {
    hide IsWalk;
    forall n: nat ensures Walks(adj, a + b, n, v) <==> Walks(adj, a, n, v) || Walks(adj, b, n, v) {
    }
    hide Walks;
  }

  lemma LostOrKept(base: Adjacency, o: Overlay, starts: set<U64>, lo: nat, hi: nat, v: U64)
    requires lo <= hi
    ensures Reaches(Patched(base, o), starts, lo, hi, v) <==>
              || Reaches(Patched(base, o), HopLevel(base, o, starts, lo), 0, hi - lo, v)
              || Reaches(Patched(base, o), Lost(base, o, starts, lo), 0, hi - lo, v)
  {
    hide HopLevel, Level, Patched, Reaches;
    var adj, kept := Patched(base, o), HopLevel(base, o, starts, lo);
    HopsAreWalks(base, o, starts, lo);
    assert kept + Lost(base, o, starts, lo) == Level(adj, starts, lo);
    ReachesFromLevel(adj, starts, lo, hi, v);
    ReachesUnion(adj, kept, Lost(base, o, starts, lo), hi - lo, v);
  }

  /** So one range is answered exactly if and only if walks lead from the kept
      vertices to whatever they lead to from the lost ones; in particular when
      nothing re-enters below its lower bound. */
  lemma RangeExactly(base: Adjacency, o: Overlay, starts: set<U64>, lo: nat, hi: nat, more: nat)
    requires 1 <= lo && hi == lo + more
    ensures (forall v :: v in HopLevels(base, o, starts, lo, hi) <==> Reaches(Patched(base, o), starts, lo, hi, v))
       <==> (forall v :: Reaches(Patched(base, o), Lost(base, o, starts, lo), 0, more, v) ==>
               Reaches(Patched(base, o), HopLevel(base, o, starts, lo), 0, more, v))
    ensures NoReentry(base, o, starts, lo) ==>
              forall v :: v in HopLevels(base, o, starts, lo, hi) <==> Reaches(Patched(base, o), starts, lo, hi, v)
  {
    hide *;
    forall v
      ensures v in HopLevels(base, o, starts, lo, hi)
         <==> Reaches(Patched(base, o), HopLevel(base, o, starts, lo), 0, more, v)
      ensures Reaches(Patched(base, o), starts, lo, hi, v) <==>
                || Reaches(Patched(base, o), HopLevel(base, o, starts, lo), 0, more, v)
                || Reaches(Patched(base, o), Lost(base, o, starts, lo), 0, more, v)
    {
      FromAnyHop(base, o, starts, lo, hi, v);
      LostOrKept(base, o, starts, lo, hi, v);
    }
    if NoReentry(base, o, starts, lo) {
      NothingLost(base, o, starts, lo);
      forall v ensures !Reaches(Patched(base, o), {}, 0, more, v) { NowhereFromNothing(Patched(base, o), more, v); }
    }
  }

  lemma NothingLost(base: Adjacency, o: Overlay, starts: set<U64>, lo: nat)
    requires NoReentry(base, o, starts, lo)
    ensures Lost(base, o, starts, lo) == {}
  {
    hide HopLevel, Level, Patched, NoReentry;
    HopsExactly(base, o, starts, lo);
  }

  lemma NowhereFromNothing(adj: Adjacency, m: nat, v: U64)
    ensures !Reaches(adj, {}, 0, m, v)
  {
  }

  /** `expand_range_with_overlay`: it invents nothing; in any range it is what
      walks lead to from the hop at the lower bound, and exact when nothing
      re-enters below that; with a lower bound of at most one hop it is the
      first hop and all that walks lead to from there, which leaves out at most
      starts. */
  method ExpandRangeWithOverlay(c: Csc, o: Overlay, starts: seq<U64>, minHops: Byte, maxHops: Byte)
    returns (r: seq<U64>)
    requires WellFormed(c)
    ensures StrictlyAscending(r) && Elems(r) == HopLevels(Decoded(c), o, Elems(starts), minHops, maxHops)
    ensures forall v :: v in r ==> Reaches(Patched(Decoded(c), o), Elems(starts), Max(minHops, 1), maxHops, v)
    ensures NoReentry(Decoded(c), o, Elems(starts), maxHops) ==>
              forall v :: v in r <==> Reaches(Patched(Decoded(c), o), Elems(starts), Max(minHops, 1), maxHops, v)
    ensures 1 <= minHops <= maxHops ==>
              var from := HopLevel(Decoded(c), o, Elems(starts), minHops);
              forall v :: v in r <==> Reaches(Patched(Decoded(c), o), from, 0, maxHops - minHops, v)
    ensures 1 <= minHops <= maxHops && NoReentry(Decoded(c), o, Elems(starts), minHops) ==>
              forall v :: v in r <==> Reaches(Patched(Decoded(c), o), Elems(starts), minHops, maxHops, v)
    ensures minHops <= 1 <= maxHops ==>
              var first := Hop(Decoded(c), o, Elems(starts));
              forall v :: v in r <==> v in first || Reaches(Patched(Decoded(c), o), first, 1, maxHops - 1, v)
    ensures minHops <= 1 ==>
              forall v :: v !in starts ==> (v in r <==> Reaches(Patched(Decoded(c), o), Elems(starts), 1, maxHops, v))
  {
    hide *;
    r := CollectHops(c, o, Elems(starts), minHops, maxHops);
    forall v ensures v in starts <==> v in Elems(starts) { InElems(starts, v); }
    forall v ensures v in r <==> v in Elems(r) { InElems(r, v); }
    ghost var base, s := Decoded(c), Elems(starts);
    MaxOne(minHops);
    forall v | v in r ensures Reaches(Patched(base, o), s, Max(minHops, 1), maxHops, v) {
      OverlaySound(base, o, s, minHops, maxHops, v);
    }
    HopsExactly(base, o, s, maxHops);
    if NoReentry(base, o, s, maxHops) {
      forall v ensures v in r <==> Reaches(Patched(base, o), s, Max(minHops, 1), maxHops, v) {
        ExactHopsExactRange(base, o, s, minHops, maxHops, v);
      }
    }
    if 1 <= minHops <= maxHops {
      RangeExactly(base, o, s, minHops, maxHops, maxHops - minHops);
      forall v
        ensures v in r <==> Reaches(Patched(base, o), HopLevel(base, o, s, minHops), 0, maxHops - minHops, v)
      {
        FromAnyHop(base, o, s, minHops, maxHops, v);
      }
    }
    if minHops <= 1 <= maxHops {
      forall v
        ensures v in r <==> v in Hop(base, o, s) || Reaches(Patched(base, o), Hop(base, o, s), 1, maxHops - 1, v)
      {
        FromFirstHop(base, o, s, minHops, maxHops, v);
      }
    }
    if minHops <= 1 {
      forall v | v !in starts ensures v in r <==> Reaches(Patched(base, o), s, 1, maxHops, v) {
        if v in r { OverlaySound(base, o, s, minHops, maxHops, v); }
        if Reaches(Patched(base, o), s, 1, maxHops, v) { OverlayComplete(base, o, s, minHops, maxHops, v); }
      }
    }
  }

  lemma MaxOne(n: nat)
    ensures Max(n, 1) >= 1 && (n <= 1 ==> Max(n, 1) == 1)
  {
  }

  /** The loop over the hops. */
  method CollectHops(c: Csc, o: Overlay, starts: set<U64>, minHops: nat, maxHops: nat) returns (r: seq<U64>)
    requires WellFormed(c)
    ensures StrictlyAscending(r) && Elems(r) == HopLevels(Decoded(c), o, starts, minHops, maxHops)
  {
    hide *;
    ghost var base := Decoded(c);
    var frontier := starts;
    var reachable: set<U64> := {};
    var hop := 0;
    HopsBegin(base, o, starts, minHops);
    while hop < maxHops && frontier != {}
      invariant hop <= maxHops
      invariant frontier == HopLevel(base, o, starts, hop) && reachable == HopLevels(base, o, starts, minHops, hop)
    {
      frontier := HopWithOverlay(c, o, frontier);
      hop := hop + 1;
      HopsNext(base, o, starts, minHops, hop);
      if hop >= minHops { reachable := reachable + frontier; }
    }
    if hop < maxHops { HopsEnd(base, o, starts, minHops, hop, maxHops); }
    r := Listing(reachable);
  }

  lemma HopsBegin(base: Adjacency, o: Overlay, starts: set<U64>, lo: nat)
    ensures HopLevel(base, o, starts, 0) == starts && HopLevels(base, o, starts, lo, 0) == {}
  {
  }

  lemma HopsNext(base: Adjacency, o: Overlay, starts: set<U64>, lo: nat, n: nat)
    requires n > 0
    ensures HopLevel(base, o, starts, n) == Hop(base, o, HopLevel(base, o, starts, n - 1))
    ensures HopLevels(base, o, starts, lo, n) ==
            if n < lo then HopLevels(base, o, starts, lo, n - 1)
            else HopLevels(base, o, starts, lo, n - 1) + HopLevel(base, o, starts, n)
  {
    hide Hop;
  }

  lemma {:induction false} HopsEnd(base: Adjacency, o: Overlay, starts: set<U64>, lo: nat, n: nat, hi: nat)
    requires n <= hi && HopLevel(base, o, starts, n) == {}
    ensures HopLevels(base, o, starts, lo, hi) == HopLevels(base, o, starts, lo, n)
              && HopLevel(base, o, starts, hi) == {}
    decreases hi
  {
    if n < hi {
      HopsEnd(base, o, starts, lo, n, hi - 1);
      var h := Hop(base, o, {});
      StepNone(Patched(base, o));
      assert h == {};
    }
  }

  /** The image of the edges 1-2, 1-3 and 2-3. */
  const TRIANGLE: Csc := Csc([1, 2, 3], [0, 2, 3, 3], [1, 2, 2])

  lemma TriangleDecodes(a: U64, b: U64)
    ensures WellFormed(TRIANGLE)
    ensures b in Neighbors(Decoded(TRIANGLE), a) <==> (a == 1 && b == 2) || (a == 1 && b == 3) || (a == 2 && b == 3)
  {
    var c := TRIANGLE;
    assert c.pointers[0] == 0 && c.pointers[1] == 2 && c.pointers[2] == 3 && c.pointers[3] == 3;
    assert WellFormed(c);
    assert RowAt(c, 0) == [1, 2] && RowAt(c, 1) == [2] && RowAt(c, 2) == [];
    DecodedAt(c, 3, a);
    hide DecodedUpto;
    assert c.vertices[0] == 1 && c.vertices[1] == 2 && c.vertices[2] == 3;
  }

  /** From two hops up walks are lost even with nothing changed: over those edges
      the walk 1-2-3 re-enters at 3 and is not found. */
  lemma LosesWalks()
    ensures WellFormed(TRIANGLE)
    ensures Reaches(Patched(Decoded(TRIANGLE), map[]), {1}, 2, 2, 3)
    ensures 3 !in HopLevels(Decoded(TRIANGLE), map[], {1}, 2, 2)
    ensures !NoReentry(Decoded(TRIANGLE), map[], {1}, 2)
  {
    TriangleDecodes(1, 2);
    var base := Decoded(TRIANGLE);
    var o: Overlay := map[];
    var adj := Patched(base, o);
    forall a: U64, b: U64
      ensures b in Neighbors(adj, a) <==> (a == 1 && b == 2) || (a == 1 && b == 3) || (a == 2 && b == 3)
    {
      TriangleDecodes(a, b);
      assert State(o, a, b) == None;
    }
    hide Decoded, WellFormed, Patched;
    TriangleWalk(adj);
    TriangleHops(base, o);
    OverlayExactly(base, o, {1}, 2);
  }

  lemma TriangleWalk(adj: Adjacency)
    requires 2 in Neighbors(adj, 1) && 3 in Neighbors(adj, 2)
    ensures Reaches(adj, {1}, 2, 2, 3)
  {
    var w: seq<U64> := [1, 2, 3];
    assert IsWalk(adj, w) && |w| == 3 && w[0] in {1} && w[2] == 3;
    assert Walks(adj, {1}, 2, 3);
  }

  lemma TriangleHops(base: Adjacency, o: Overlay)
    requires o == map[] && 3 in Neighbors(Patched(base, o), 1)
    ensures 3 !in HopLevels(base, o, {1}, 2, 2)
  {
    hide Patched;
    var h1 := HopLevel(base, o, {1}, 1);
    assert forall f, d :: !Added(o, f, d);
    assert HopLevel(base, o, {1}, 0) == {1};
    assert 3 in Step(Patched(base, o), {1}) by { assert 1 in {1}; }
    assert 3 in h1;
    assert HopLevel(base, o, {1}, 2) == Hop(base, o, h1);
    assert 3 !in Hop(base, o, h1);
    assert 3 !in HopLevels(base, o, {1}, 2, 1);
  }
}
