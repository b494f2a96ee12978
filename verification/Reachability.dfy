/** Walks over an adjacency, and the traversals specified by them. */
module Reachability {
  import opened Basics
  import opened Ascending
  import opened Rows

  function Neighbors(adj: Adjacency, v: U64): set<U64> { if v in adj then adj[v] else {} }

  /** Every vertex one edge away from `from`. */
  function Step(adj: Adjacency, from: set<U64>): (r: set<U64>)
    ensures forall d :: d in r <==> exists v :: v in from && d in Neighbors(adj, v)
  {
    set v, d | v in from && d in Neighbors(adj, v) :: d
  }

  // Walks.

  ghost predicate IsWalk(adj: Adjacency, w: seq<U64>) {
    w != [] && forall i :: 0 <= i < |w| - 1 ==> w[i + 1] in Neighbors(adj, w[i])
  }

  /** Some walk of exactly `n` edges leads from `starts` to `v`. */
  ghost predicate Walks(adj: Adjacency, starts: set<U64>, n: nat, v: U64) {
    exists w :: IsWalk(adj, w) && |w| == n + 1 && w[0] in starts && w[n] == v
  }

  /** Some walk of `lo` to `hi` edges leads from `starts` to `v`. */
  ghost predicate Reaches(adj: Adjacency, starts: set<U64>, lo: nat, hi: nat, v: U64) {
    exists n :: lo <= n <= hi && Walks(adj, starts, n, v)
  }

  /** The vertices exactly `n` steps out. */
  ghost function Level(adj: Adjacency, starts: set<U64>, n: nat): set<U64> {
    if n == 0 then starts else Step(adj, Level(adj, starts, n - 1))
  }

  lemma WalkExtends(adj: Adjacency, starts: set<U64>, n: nat, u: U64, v: U64)
    requires Walks(adj, starts, n, u) && v in Neighbors(adj, u)
    ensures Walks(adj, starts, n + 1, v)
  {
    var w :| IsWalk(adj, w) && |w| == n + 1 && w[0] in starts && w[n] == u;
    var more := w + [v];
    assert IsWalk(adj, more) && |more| == n + 2 && more[0] in starts && more[n + 1] == v;
  }

  lemma WalkShortens(adj: Adjacency, starts: set<U64>, n: nat, v: U64) returns (u: U64)
    requires Walks(adj, starts, n + 1, v)
    ensures Walks(adj, starts, n, u) && v in Neighbors(adj, u)
  {
    var w :| IsWalk(adj, w) && |w| == n + 2 && w[0] in starts && w[n + 1] == v;
    u := w[n];
    var front := w[..n + 1];
    assert w[n + 1] in Neighbors(adj, w[n]);
    assert IsWalk(adj, front) && |front| == n + 1 && front[0] in starts && front[n] == u;
  }

  lemma WalksNowhere(adj: Adjacency, starts: set<U64>, v: U64)
    ensures Walks(adj, starts, 0, v) <==> v in starts
  {
    if v in starts {
      var w := [v];
      assert IsWalk(adj, w) && |w| == 1 && w[0] in starts && w[0] == v;
    }
  }

  /** Stepping set by set follows exactly the walks. */
  lemma {:induction false} LevelIsWalks(adj: Adjacency, starts: set<U64>, n: nat, v: U64)
    ensures v in Level(adj, starts, n) <==> Walks(adj, starts, n, v)
  {
    hide Walks, Neighbors, Level, Step;
    LevelUnfolds(adj, starts, n, v);
    if n == 0 {
      WalksNowhere(adj, starts, v);
    } else {
      if v in Level(adj, starts, n) {
        var u :| u in Level(adj, starts, n - 1) && v in Neighbors(adj, u);
        LevelIsWalks(adj, starts, n - 1, u);
        WalkExtends(adj, starts, n - 1, u, v);
      }
      if Walks(adj, starts, n, v) {
        var u := WalkShortens(adj, starts, n - 1, v);
        LevelIsWalks(adj, starts, n - 1, u);
      }
    }
  }

  lemma LevelUnfolds(adj: Adjacency, starts: set<U64>, n: nat, v: U64)
    ensures v in Level(adj, starts, n) <==>
              if n == 0 then v in starts else exists u :: u in Level(adj, starts, n - 1) && v in Neighbors(adj, u)
  {
    hide Neighbors;
  }

  /** Everything between `lo` and `hi` steps out. */
  ghost function Levels(adj: Adjacency, starts: set<U64>, lo: nat, hi: nat): set<U64>
    decreases hi
  {
    if hi < lo then {}
    else (if hi == 0 then {} else Levels(adj, starts, lo, hi - 1)) + Level(adj, starts, hi)
  }

  ghost predicate AtLevel(adj: Adjacency, starts: set<U64>, n: nat, v: U64) { v in Level(adj, starts, n) }

  lemma {:induction false} LevelsAre(adj: Adjacency, starts: set<U64>, lo: nat, hi: nat, v: U64)
    ensures v in Levels(adj, starts, lo, hi) <==> exists n :: lo <= n <= hi && AtLevel(adj, starts, n, v)
    decreases hi
  {
    hide Level, Levels, AtLevel;
    LevelsUnfold(adj, starts, lo, hi, v);
    if hi >= lo && hi > 0 { LevelsAre(adj, starts, lo, hi - 1, v); }
  }

  lemma LevelsUnfold(adj: Adjacency, starts: set<U64>, lo: nat, hi: nat, v: U64)
    ensures v in Levels(adj, starts, lo, hi) <==>
              lo <= hi && (AtLevel(adj, starts, hi, v) || (hi > 0 && v in Levels(adj, starts, lo, hi - 1)))
  {
    hide Level;
  }

  lemma ReachesIsLevels(adj: Adjacency, starts: set<U64>, lo: nat, hi: nat, v: U64)
    ensures Reaches(adj, starts, lo, hi, v) <==> v in Levels(adj, starts, lo, hi)
  {
    hide Level, Walks;
    LevelsAre(adj, starts, lo, hi, v);
    forall n | lo <= n <= hi ensures AtLevel(adj, starts, n, v) <==> Walks(adj, starts, n, v) {
      LevelIsWalks(adj, starts, n, v);
    }
  }

  // An empty frontier stays empty.

  lemma {:induction false} EmptyForever(adj: Adjacency, starts: set<U64>, n: nat, m: nat)
    requires n <= m && Level(adj, starts, n) == {}
    ensures Level(adj, starts, m) == {}
    decreases m
  {
    if n < m { EmptyForever(adj, starts, n, m - 1); }
  }

  /** Stopping at an empty frontier loses nothing. */
  lemma {:induction false} BreakLosesNothing(adj: Adjacency, starts: set<U64>, lo: nat, n: nat, hi: nat)
    requires n <= hi && Level(adj, starts, n) == {}
    ensures Levels(adj, starts, lo, hi) == Levels(adj, starts, lo, n)
    decreases hi
  {
    if n < hi {
      EmptyForever(adj, starts, n, hi);
      BreakLosesNothing(adj, starts, lo, n, hi - 1);
    }
  }

  // The traversals.

  lemma StepNone(adj: Adjacency)
    ensures Step(adj, {}) == {}
  {
  }

  lemma StepOne(adj: Adjacency, v: U64)
    ensures Step(adj, {v}) == Neighbors(adj, v)
  {
    forall d ensures d in Step(adj, {v}) <==> d in Neighbors(adj, v) {
      assert v in {v};
    }
  }

  method StepFrontier(adj: Adjacency, frontier: set<U64>) returns (next: set<U64>)
    ensures next == Step(adj, frontier)
  {
    hide Step, Neighbors;
    next := {};
    StepNone(adj);
    assert frontier - frontier == {};
    var left := frontier;
    while left != {}
      invariant left <= frontier && next == Step(adj, frontier - left)
      decreases |left|
    {
      var v :| v in left;
      assert frontier - (left - {v}) == (frontier - left) + {v};
      StepUnion(adj, frontier - left, {v});
      StepOne(adj, v);
      next := next + Neighbors(adj, v);
      left := left - {v};
    }
    assert frontier - left == frontier;
  }

  /** `naive_reachable`: in ascending order, exactly the vertices that some walk
      of one to `hops` edges from the root ends in. */
  method NaiveReachable(adj: Adjacency, root: U64, hops: nat) returns (r: seq<U64>)
    ensures StrictlyAscending(r)
    ensures forall v :: v in r <==> Reaches(adj, {root}, 1, hops, v)
  {
    hide Step, Reaches;
    var frontier := {root};
    var reachable: set<U64> := {};
    for i := 0 to hops
      invariant frontier == Level(adj, {root}, i)
      invariant reachable == Levels(adj, {root}, 1, i)
    {
      var next := StepFrontier(adj, frontier);
      reachable := reachable + next;
      frontier := next;
      if frontier == {} {
        BreakLosesNothing(adj, {root}, 1, i + 1, hops);
        break;
      }
    }
    r := Listing(reachable);
    forall v ensures v in r <==> Reaches(adj, {root}, 1, hops, v) {
      ReachesIsLevels(adj, {root}, 1, hops, v);
      assert v in r <==> v in Elems(r);
    }
  }

  // Depth: more hops than destinations find nothing new.

  ghost function Destinations(adj: Adjacency): set<U64> {
    set v, d | v in adj && d in adj[v] :: d
  }

  /** One more step from what is already reached. */
  lemma {:induction false} LevelsStep(adj: Adjacency, starts: set<U64>, n: nat)
    ensures Levels(adj, starts, 1, n + 1) == Step(adj, starts + Levels(adj, starts, 1, n))
    ensures Levels(adj, starts, 1, n) <= Levels(adj, starts, 1, n + 1)
  {
    hide Step;
    if n == 0 {
      assert starts + Levels(adj, starts, 1, 0) == starts;
      assert Level(adj, starts, 1) == Step(adj, Level(adj, starts, 0));
    } else {
      LevelsStep(adj, starts, n - 1);
      StepUnion(adj, starts + Levels(adj, starts, 1, n - 1), Level(adj, starts, n));
      assert starts + Levels(adj, starts, 1, n) == (starts + Levels(adj, starts, 1, n - 1)) + Level(adj, starts, n);
    }
  }

  lemma StepUnion(adj: Adjacency, a: set<U64>, b: set<U64>)
    ensures Step(adj, a + b) == Step(adj, a) + Step(adj, b)
  {
  }

  lemma StepStays(adj: Adjacency, from: set<U64>)
    ensures Step(adj, from) <= Destinations(adj)
  {
  }

  lemma LevelsGrow(adj: Adjacency, starts: set<U64>, n: nat)
    ensures Levels(adj, starts, 1, n) <= Levels(adj, starts, 1, n + 1)
    ensures n > 0 && Levels(adj, starts, 1, n - 1) == Levels(adj, starts, 1, n) ==>
              Levels(adj, starts, 1, n) == Levels(adj, starts, 1, n + 1)
  {
    hide *;
    LevelsStep(adj, starts, n);
    if n > 0 {
      LevelsStep(adj, starts, n - 1);
      SameStep(adj, starts, Levels(adj, starts, 1, n - 1), Levels(adj, starts, 1, n));
    }
  }

  lemma SameStep(adj: Adjacency, starts: set<U64>, a: set<U64>, b: set<U64>)
    ensures a == b ==> Step(adj, starts + a) == Step(adj, starts + b)
  {
  }

  /** Each round either adds a vertex or was the last to add any. */
  lemma {:induction false} GrowsOrStops(adj: Adjacency, starts: set<U64>, n: nat)
    ensures Levels(adj, starts, 1, n + 1) == Levels(adj, starts, 1, n) || |Levels(adj, starts, 1, n + 1)| >= n + 1
  {
    hide *;
    LevelsGrow(adj, starts, n);
    if n > 0 {
      GrowsOrStops(adj, starts, n - 1);
      GrowsAgain(Levels(adj, starts, 1, n - 1), Levels(adj, starts, 1, n), Levels(adj, starts, 1, n + 1), n);
    } else {
      GrowsAgain({}, Levels(adj, starts, 1, 0), Levels(adj, starts, 1, 1), 0);
    }
  }

  lemma GrowsAgain(before: set<U64>, now: set<U64>, next: set<U64>, n: nat)
    requires now <= next && (before == now && n > 0 ==> now == next) && (before == now || |now| >= n)
    ensures now == next || |next| >= n + 1
  {
    SubsetCard(now, next);
  }

  lemma {:induction false} StopsForever(adj: Adjacency, starts: set<U64>, n: nat, m: nat)
    requires n <= m && Levels(adj, starts, 1, n + 1) == Levels(adj, starts, 1, n)
    ensures Levels(adj, starts, 1, m) == Levels(adj, starts, 1, n)
    decreases m
  {
    hide Step, Level, Levels;
    if n < m {
      StopsForever(adj, starts, n, m - 1);
      LevelsStep(adj, starts, m - 1);
      LevelsStep(adj, starts, n);
    }
  }

  /** Hops beyond the number of vertices that have an incoming edge add nothing. */
  lemma EnoughHops(adj: Adjacency, starts: set<U64>, hops: nat, v: U64)
    requires hops >= |Destinations(adj)|
    ensures Reaches(adj, starts, 1, hops, v) <==> Reaches(adj, starts, 1, |Destinations(adj)|, v)
  {
    hide Step, Level, Levels, Reaches, Destinations;
    var n := |Destinations(adj)|;
    GrowsOrStops(adj, starts, n);
    LevelsStep(adj, starts, n);
    StepStays(adj, starts + Levels(adj, starts, 1, n));
    SubsetCard(Levels(adj, starts, 1, n + 1), Destinations(adj));
    StopsForever(adj, starts, n, hops);
    ReachesIsLevels(adj, starts, 1, hops, v);
    ReachesIsLevels(adj, starts, 1, n, v);
  }

  // Breadth-first search with a `seen` set.

  /** After `n` rounds: everything within `n` steps has been seen, and only the
      frontier has successors not looked at yet. */
  ghost predicate Explored(adj: Adjacency, starts: set<U64>, n: nat, seen: set<U64>, frontier: set<U64>) {
    && seen == starts + Levels(adj, starts, 1, n)
    && frontier <= seen
    && Step(adj, seen - frontier) <= seen
  }

  lemma ExploreStart(adj: Adjacency, starts: set<U64>)
    ensures Explored(adj, starts, 0, starts, starts)
  {
    StepNone(adj);
    assert starts - starts == {};
    assert starts + Levels(adj, starts, 1, 0) == starts;
  }

  lemma ExploreNext(adj: Adjacency, starts: set<U64>, n: nat, seen: set<U64>, frontier: set<U64>)
    requires Explored(adj, starts, n, seen, frontier)
    ensures var next := Step(adj, frontier) - seen;
            Explored(adj, starts, n + 1, seen + next, next)
  {
    hide Step, Level, Levels;
    var next := Step(adj, frontier) - seen;
    LevelsStep(adj, starts, n);
    StepUnion(adj, seen - frontier, frontier);
    assert (seen - frontier) + frontier == seen;
    assert (seen + next) - next == seen;
  }

  lemma {:induction false} ExploreDone(adj: Adjacency, starts: set<U64>, n: nat, seen: set<U64>, hops: nat)
    requires Explored(adj, starts, n, seen, {}) && n <= hops
    ensures seen == starts + Levels(adj, starts, 1, hops)
    decreases hops
  {
    hide Step, Level, Levels;
    assert seen - {} == seen;
    if n < hops {
      ExploreDone(adj, starts, n, seen, hops - 1);
      LevelsStep(adj, starts, hops - 1);
    }
  }

  /** `expand_rust`: the vertices other than the starts that a walk of one to
      `hops` edges ends in. It looks at every vertex once. */
  method Expand(adj: Adjacency, starts: set<U64>, hops: nat) returns (r: seq<U64>)
    ensures StrictlyAscending(r)
    ensures forall v :: v in r <==> v !in starts && Reaches(adj, starts, 1, hops, v)
  {
    hide Step, Reaches, Explored, Levels, Level;
    var frontier, seen := starts, starts;
    ExploreStart(adj, starts);
    var done := 0;
    while done < hops
      invariant done <= hops && Explored(adj, starts, done, seen, frontier)
    {
      var reached := StepFrontier(adj, frontier);
      ExploreNext(adj, starts, done, seen, frontier);
      var next := reached - seen;
      seen := seen + next;
      frontier := next;
      done := done + 1;
      if frontier == {} {
        break;
      }
    }
    ExploredEnd(adj, starts, done, seen, frontier, hops);
    r := Listing(seen - starts);
    forall v ensures v in r <==> v !in starts && Reaches(adj, starts, 1, hops, v) {
      ReachesIsLevels(adj, starts, 1, hops, v);
      assert v in r <==> v in Elems(r);
    }
  }

  lemma ExploredEnd(adj: Adjacency, starts: set<U64>, n: nat, seen: set<U64>, frontier: set<U64>, hops: nat)
    requires Explored(adj, starts, n, seen, frontier) && n <= hops && (n == hops || frontier == {})
    ensures seen == starts + Levels(adj, starts, 1, hops)
  {
    if n < hops { ExploreDone(adj, starts, n, seen, hops); }
  }
}
