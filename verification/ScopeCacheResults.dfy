/** What the reader cache guarantees over whole runs. */
module ScopeCacheResults {
  import opened Basics
  import opened ScopeCache
  import opened ScopeCacheRuns
  import opened ScopeCacheSafety

  ghost predicate Reachable(s: System) {
    exists start, steps :: Init(start) && ValidRun(start, steps) && Run(start, steps) == s
  }

  lemma ReachableInv(s: System)
    requires Reachable(s)
    ensures Inv(s)
  {
    var start, steps :| Init(start) && ValidRun(start, steps) && Run(start, steps) == s;
    InitHolds(start);
    RunKeeps(start, steps);
  }

  /** Every reader ever opened is in exactly one place: in flight with one task,
      cached under one scope, waiting for one task to close it, or closed; and
      none was closed twice. */
  lemma EveryReaderOnce(s: System, r: nat)
    requires Reachable(s)
    ensures r < s.next <==> exists p :: At(s, r, p)
    ensures forall p, q :: At(s, r, p) && At(s, r, q) ==> p == q
    ensures NoDup(s.closed)
    ensures forall t :: 0 <= t < |s.tasks| ==> NoDup(ClosingOf(s.tasks[t]))
  {
    ReachableInv(s);
    var place :| Placed(s, place);
    if r < s.next { assert At(s, r, place[r]); }
  }

  /** The bound holds, and an entry that no task is processing is hot with fewer
      than two idle rechecks. */
  lemma BoundedAndHot(s: System)
    requires Reachable(s)
    ensures |s.clusters| <= s.maxOpen
    ensures forall sc :: sc in s.clusters && !InUse(s, sc) ==>
              s.clusters[sc].hot && s.clusters[sc].idleRechecks < HOT_SCOPE_IDLE_RECHECKS
  {
    ReachableInv(s);
  }

  /** At the moment a reader given up by eviction, a duplicate or rejected open,
      or the removal of an unregistered scope is closed, nobody holds it. */
  lemma GentleCloseIsUnborrowed(s: System, t: nat)
    requires Reachable(s) && Enabled(s, CloseOne(t)) && TakenGently(s.tasks[t])
    ensures ClosingOf(s.tasks[t])[0] !in Borrowed(s)
    ensures Apply(s, CloseOne(t)).closed == s.closed + [ClosingOf(s.tasks[t])[0]]
  {
    ReachableInv(s);
  }

  /** When no task is active nothing is left over: every reader that is not
      cached has been closed, and at most `maxOpen` remain open. */
  lemma QuiescentLeavesNothing(s: System)
    requires Reachable(s) && AllIdle(s)
    ensures forall r: nat :: r < s.next ==> (r in s.closed <==> !exists sc :: At(s, r, CachedAt(sc)))
    ensures |s.closed| + |s.clusters| == s.next
    ensures s.next - |s.closed| <= s.maxOpen
    ensures forall sc :: sc in s.clusters ==> s.clusters[sc].hot
  {
    ReachableInv(s);
    var place :| Placed(s, place);
    forall r: nat | r < s.next ensures r in s.closed <==> !exists sc :: At(s, r, CachedAt(sc)) {
      CachedOrClosed(s, place, r);
      CachedReadersIs(s.clusters, r);
      if r !in s.closed {
        var sc :| sc in s.clusters && s.clusters[sc].reader == r;
        assert At(s, r, CachedAt(sc));
      }
    }
    ReadersPartition(s, place);
  }

  ghost predicate AllIdle(s: System) { forall t :: 0 <= t < |s.tasks| ==> s.tasks[t].Idle? }

  lemma CachedReadersIs(c: Clusters, r: nat)
    ensures r in CachedReaders(c) <==> exists sc :: sc in c && c[sc].reader == r
  {
  }

  lemma CachedOrClosed(s: System, place: map<nat, Place>, r: nat)
    requires Placed(s, place) && AllIdle(s)
    ensures r < s.next <==> r in s.closed || r in CachedReaders(s.clusters)
    ensures !(r in s.closed && r in CachedReaders(s.clusters))
  {
    CachedReadersIs(s.clusters, r);
    assert At(s, r, Shut) <==> r in s.closed;
    if r < s.next { assert At(s, r, place[r]); }
    if sc :| sc in s.clusters && s.clusters[sc].reader == r { assert At(s, r, CachedAt(sc)); }
  }

  lemma ReadersPartition(s: System, place: map<nat, Place>)
    requires Placed(s, place) && AllIdle(s)
    ensures |s.closed| + |s.clusters| == s.next
  {
    var cached := CachedReaders(s.clusters);
    var all := cached + Elems(s.closed);
    CachedReadersCard(s, place, s.clusters);
    NoDupCard(s.closed);
    hide Placed, AllIdle, CachedReaders, At;
    forall r: nat ensures r in all <==> r < s.next {
      CachedOrClosed(s, place, r);
    }
    assert cached !! Elems(s.closed) by {
      forall r | r in cached ensures r !in Elems(s.closed) { CachedOrClosed(s, place, r); }
    }
    BelowCard(s.next, all);
  }

  function CachedReaders(c: Clusters): set<nat> { set sc | sc in c :: c[sc].reader }

  lemma {:induction false} CachedReadersCard(s: System, place: map<nat, Place>, c: Clusters)
    requires Placed(s, place)
    requires forall sc :: sc in c ==> sc in s.clusters && c[sc] == s.clusters[sc]
    ensures |CachedReaders(c)| == |c|
    decreases |c|
  {
    if |c| > 0 {
      var sc :| sc in c;
      var rest := c - {sc};
      RemoveShrinks(c, sc);
      CachedReadersCard(s, place, rest);
      assert At(s, c[sc].reader, CachedAt(sc));
      assert c[sc].reader !in CachedReaders(rest) by {
        forall other | other in rest ensures rest[other].reader != c[sc].reader {
          assert At(s, c[other].reader, CachedAt(other));
        }
      }
      forall r ensures r in CachedReaders(c) <==> r in CachedReaders(rest) + {c[sc].reader} {
        if r in CachedReaders(c) {
          var k :| k in c && c[k].reader == r;
          assert k != sc ==> k in rest && rest[k].reader == r;
        }
        if r in CachedReaders(rest) {
          var k :| k in rest && rest[k].reader == r;
          assert k in c && c[k].reader == r;
        }
      }
      assert CachedReaders(c) == CachedReaders(rest) + {c[sc].reader};
    }
  }

  lemma {:induction false} BelowCard(n: nat, all: set<nat>)
    requires forall r: nat :: r in all <==> r < n
    ensures |all| == n
  {
    if n > 0 {
      BelowCard(n - 1, all - {n - 1});
    } else {
      assert all == {};
    }
  }

  // Admission is never refused when there are no more tasks than cache slots.

  lemma {:induction false} HandlesCard(tasks: seq<Task>, held: set<nat>)
    requires forall r :: r in held ==> exists t :: 0 <= t < |tasks| && Handle(tasks[t]) == Some(r)
    ensures |held| <= |tasks|
  {
    if tasks != [] {
      var last := tasks[|tasks| - 1];
      var rest := tasks[..|tasks| - 1];
      var less := if Handle(last).Some? then held - {Handle(last).value} else held;
      forall r | r in less ensures exists t :: 0 <= t < |rest| && Handle(rest[t]) == Some(r) {
        var t :| 0 <= t < |tasks| && Handle(tasks[t]) == Some(r);
        assert rest[t] == tasks[t];
      }
      HandlesCard(rest, less);
    } else {
      assert held == {};
    }
  }

  /** The configured limits keep concurrency within the cache size, so an open is
      never rejected. */
  lemma NeverRefused(s: System, t: nat)
    requires Reachable(s) && |s.tasks| <= s.maxOpen && t < |s.tasks|
    ensures !Enabled(s, Admit(t, Full))
  {
    ReachableInv(s);
    if Enabled(s, Admit(t, Full)) {
      FullNeedsTasks(s, t);
      assert false;
    }
  }

  /** Cached readers that are all held are held by other tasks than the one
      asking for admission. */
  lemma HeldBySomeTask(s: System, t: nat, r: nat)
    requires Enabled(s, Admit(t, Full)) && r in CachedReaders(s.clusters) + {s.tasks[t].reader}
    ensures exists i :: 0 <= i < |s.tasks| && Handle(s.tasks[i]) == Some(r)
  {
    hide Borrowed;
    if r == s.tasks[t].reader {
      assert Handle(s.tasks[t]) == Some(r);
    } else {
      CachedReadersIs(s.clusters, r);
      var sc :| sc in s.clusters && s.clusters[sc].reader == r;
      assert sc !in Unborrowed(s.clusters, Borrowed(s));
      BorrowedIs(s, r);
    }
  }

  lemma FullNeedsTasks(s: System, t: nat)
    requires Inv(s) && Enabled(s, Admit(t, Full))
    ensures s.maxOpen < |s.tasks|
  {
    var place :| Placed(s, place);
    var r := s.tasks[t].reader;
    var cached := CachedReaders(s.clusters);
    CachedReadersCard(s, place, s.clusters);
    CachedReadersIs(s.clusters, r);
    assert At(s, r, InFlight(t));
    if sc :| sc in s.clusters && s.clusters[sc].reader == r {
      assert !At(s, r, CachedAt(sc));
    }
    assert |s.clusters| >= s.maxOpen;
    hide *;
    assert |cached + {r}| == |cached| + 1;
    forall q | q in cached + {r} ensures exists i :: 0 <= i < |s.tasks| && Handle(s.tasks[i]) == Some(q) {
      HeldBySomeTask(s, t, q);
    }
    HandlesCard(s.tasks, cached + {r});
  }

  // One task per scope.

  function ScopeOf(x: Task): Option<Scope> {
    match x
    case Arrived(scope, _) => Some(scope)
    case Opening(scope, _) => Some(scope)
    case Opened(scope, _, _) => Some(scope)
    case Using(scope, _, _, _) => Some(scope)
    case Leaving(scope, _, _) => Some(scope)
    case _ => None
  }

  ghost predicate Free(s: System, scope: Scope) {
    forall i :: 0 <= i < |s.tasks| ==> ScopeOf(s.tasks[i]) != Some(scope)
  }

  /** The scheduler's discipline: a batch has no scope twice, and the cache is
      shut down after the last batch. */
  ghost predicate Disciplined(s: System, step: Step) {
    match step
    case Arrive(_, scope) => Free(s, scope)
    case InvalidateScope(_, scope) => Free(s, scope)
    case CloseAll(_, _) => forall i :: 0 <= i < |s.tasks| ==> s.tasks[i].Idle?
    case _ => true
  }

  ghost predicate DisciplinedRun(s: System, steps: seq<Step>)
    requires ValidRun(s, steps)
    decreases |steps|
  {
    steps == [] || (Disciplined(s, steps[0]) && DisciplinedRun(Apply(s, steps[0]), steps[1..]))
  }

  ghost predicate Exclusive(s: System) {
    forall i, j :: 0 <= i < |s.tasks| && 0 <= j < |s.tasks| && i != j && ScopeOf(s.tasks[i]).Some? ==>
      ScopeOf(s.tasks[i]) != ScopeOf(s.tasks[j])
  }

  /** Whatever a task uses is in the cache, so neither closed nor about to be. */
  ghost predicate OpenInUse(s: System) {
    forall t :: 0 <= t < |s.tasks| && s.tasks[t].Using? ==> At(s, s.tasks[t].reader, CachedAt(s.tasks[t].scope))
  }

  lemma StepExclusive(s: System, step: Step)
    requires Exclusive(s) && Enabled(s, step) && Disciplined(s, step)
    ensures Exclusive(Apply(s, step))
  {
    hide AdmissionFor, Stale, Unborrowed, ReadersIn, Admitted, AfterVerdict, FinishVerdict, Borrowed;
    var s', t := Apply(s, step), step.t;
    assert step.Arrive? || ScopeOf(s'.tasks[t]).None? || ScopeOf(s'.tasks[t]) == ScopeOf(s.tasks[t]);
    forall i, j | 0 <= i < |s'.tasks| && 0 <= j < |s'.tasks| && i != j && ScopeOf(s'.tasks[i]).Some?
      ensures ScopeOf(s'.tasks[i]) != ScopeOf(s'.tasks[j])
    {
      assert i != t ==> s'.tasks[i] == s.tasks[i];
      assert j != t ==> s'.tasks[j] == s.tasks[j];
    }
  }

  lemma StepOpenInUse(s: System, step: Step)
    requires Exclusive(s) && OpenInUse(s) && Enabled(s, step) && Disciplined(s, step)
    ensures OpenInUse(Apply(s, step))
  {
    hide Borrowed, ReadersIn, FinishVerdict;
    var s', t := Apply(s, step), step.t;
    forall u | 0 <= u < |s'.tasks| && s'.tasks[u].Using?
      ensures At(s', s'.tasks[u].reader, CachedAt(s'.tasks[u].scope))
    {
      if u != t {
        assert s'.tasks[u] == s.tasks[u];
        var r, sc := s.tasks[u].reader, s.tasks[u].scope;
        assert At(s, r, CachedAt(sc));
        assert Handle(s.tasks[u]) == Some(r);
        BorrowedIs(s, r);
        assert ScopeOf(s.tasks[u]) == Some(sc) && ScopeOf(s.tasks[t]) != Some(sc);
      }
    }
  }

  lemma {:induction false} DisciplinedKeeps(s: System, steps: seq<Step>)
    requires Exclusive(s) && OpenInUse(s) && ValidRun(s, steps) && DisciplinedRun(s, steps)
    ensures OpenInUse(Run(s, steps))
    decreases |steps|
  {
    hide Exclusive, OpenInUse, Enabled, Apply, Disciplined;
    if steps != [] {
      StepExclusive(s, steps[0]);
      StepOpenInUse(s, steps[0]);
      DisciplinedKeeps(Apply(s, steps[0]), steps[1..]);
    }
  }

  /** Whatever is in use is neither closed nor waiting to be. */
  ghost predicate UsesOpen(s: System) {
    forall t, i :: 0 <= t < |s.tasks| && 0 <= i < |s.tasks| && s.tasks[t].Using? ==>
      s.tasks[t].reader !in s.closed && s.tasks[t].reader !in ClosingOf(s.tasks[i])
  }

  lemma OpenInUseMeans(s: System)
    requires Inv(s) && OpenInUse(s)
    ensures UsesOpen(s)
  {
    var place :| Placed(s, place);
    forall t, i | 0 <= t < |s.tasks| && 0 <= i < |s.tasks| && s.tasks[t].Using?
      ensures s.tasks[t].reader !in s.closed && s.tasks[t].reader !in ClosingOf(s.tasks[i])
    {
      var r := s.tasks[t].reader;
      assert At(s, r, CachedAt(s.tasks[t].scope));
      assert !At(s, r, Shut) && !At(s, r, Pending(i));
    }
  }

  /** With one task per scope, no task ever uses a reader that has been closed or
      handed over for closing. */
  lemma NoUseAfterClose(s: System, steps: seq<Step>)
    requires Init(s) && ValidRun(s, steps) && DisciplinedRun(s, steps)
    ensures UsesOpen(Run(s, steps))
  {
    InitHolds(s);
    RunKeeps(s, steps);
    DisciplinedKeeps(s, steps);
    OpenInUseMeans(Run(s, steps));
  }

  // One batch: task `t` is given the scope `work[t]`.

  ghost predicate GivenStep(s: System, work: seq<Scope>, step: Step)
    requires |work| == |s.tasks| && Enabled(s, step)
  {
    match step
    case Arrive(t, scope) => scope == work[t]
    case InvalidateScope(t, scope) => scope == work[t]
    case CloseAll(_, _) => AllIdle(s)
    case _ => true
  }

  ghost predicate Given(s: System, work: seq<Scope>, steps: seq<Step>)
    requires ValidRun(s, steps) && |work| == |s.tasks|
    decreases |steps|
  {
    steps == [] || (GivenStep(s, work, steps[0]) && Given(Stepped(s, steps[0]), work, steps[1..]))
  }

  ghost function Stepped(s: System, step: Step): (t: System)
    requires Enabled(s, step)
    ensures t == Apply(s, step) && |t.tasks| == |s.tasks| && t.maxOpen == s.maxOpen
  {
    Apply(s, step)
  }

  /** Every task is at its own scope or at none. */
  ghost predicate AtWork(s: System, work: seq<Scope>) {
    |work| == |s.tasks| && forall t :: 0 <= t < |s.tasks| && ScopeOf(s.tasks[t]).Some? ==>
        ScopeOf(s.tasks[t]) == Some(work[t])
  }

  lemma GivenIsDisciplined(s: System, work: seq<Scope>, step: Step)
    requires NoDup(work) && AtWork(s, work) && Enabled(s, step) && GivenStep(s, work, step)
    ensures Disciplined(s, step) && AtWork(Apply(s, step), work)
  {
    hide AdmissionFor, Stale, Unborrowed, ReadersIn, Admitted, AfterVerdict, FinishVerdict, Borrowed;
    var s', t := Apply(s, step), step.t;
    assert step.Arrive? || ScopeOf(s'.tasks[t]).None? || ScopeOf(s'.tasks[t]) == ScopeOf(s.tasks[t]);
    forall u | 0 <= u < |s'.tasks| && ScopeOf(s'.tasks[u]).Some? ensures ScopeOf(s'.tasks[u]) == Some(work[u]) {
      assert u != t ==> s'.tasks[u] == s.tasks[u];
    }
    if step.Arrive? || step.InvalidateScope? {
      forall i | 0 <= i < |s.tasks| ensures ScopeOf(s.tasks[i]) != Some(work[t]) {
        assert i != t ==> work[i] != work[t];
      }
    }
  }

  lemma {:induction false} GivenRunIsDisciplined(s: System, work: seq<Scope>, steps: seq<Step>)
    requires NoDup(work) && AtWork(s, work) && ValidRun(s, steps) && Given(s, work, steps)
    ensures DisciplinedRun(s, steps)
    decreases |steps|
  {
    hide NoDup, AtWork, Enabled, Apply, Disciplined, GivenStep;
    if steps != [] {
      GivenIsDisciplined(s, work, steps[0]);
      GivenRunIsDisciplined(Apply(s, steps[0]), work, steps[1..]);
    }
  }

  /** From any quiescent state, a batch that gives out this work never has a task
      use a reader that is closed or about to be. */
  ghost predicate BatchUsesOpen(maxOpen: nat, work: seq<Scope>) {
    forall s, steps ::
      Reachable(s) && AllIdle(s) && s.maxOpen == maxOpen && |s.tasks| == |work| && ValidRun(s, steps)
          && Given(s, work, steps)
      ==> UsesOpen(Run(s, steps))
  }

  lemma DistinctWorkUsesOpen(s: System, work: seq<Scope>, steps: seq<Step>)
    requires NoDup(work) && Reachable(s) && AllIdle(s) && |s.tasks| == |work| && ValidRun(s, steps)
    requires Given(s, work, steps)
    ensures UsesOpen(Run(s, steps))
  {
    ReachableInv(s);
    assert AtWork(s, work) && Exclusive(s) && OpenInUse(s);
    hide *;
    GivenRunIsDisciplined(s, work, steps);
    RunKeeps(s, steps);
    DisciplinedKeeps(s, steps);
    OpenInUseMeans(Run(s, steps));
  }

  // Two tasks at one scope: the first fails while the second uses the reader.

  function SharedSteps(scope: Scope, a: nat, b: nat): seq<Step> {
    [Arrive(a, scope), Lookup(a), OpenDone(a), Admit(a, Fits), Arrive(b, scope), Lookup(b), Invalidate(a), CloseOne(a)]
  }

  function Idles(n: nat): (r: seq<Task>)
    ensures |r| == n && forall t :: 0 <= t < n ==> r[t] == Idle
  {
    seq(n, t => Idle)
  }

  function Two(n: nat, a: nat, x: Task, b: nat, y: Task): (r: seq<Task>)
    requires a < n && b < n
    ensures |r| == n
    ensures a != b ==> r[a] == x && r[b] == y
    ensures forall t :: 0 <= t < n && t != a && t != b ==> r[t] == Idle
  {
    Idles(n)[a := x][b := y]
  }

  function SharedTrace(m: nat, n: nat, scope: Scope, a: nat, b: nat): (r: seq<System>)
    requires a < n && b < n
    ensures |r| == 9 && forall i :: 0 <= i < 9 ==> |r[i].tasks| == n && r[i].maxOpen == m
  {
    var cold, used := map[scope := Entry(0, 1, false, 0)], map[scope := Entry(0, 2, false, 0)];
    [System(m, 0, map[], Idles(n), 0, []),
     System(m, 1, map[], Two(n, a, Arrived(scope, 1), b, Idle), 0, []),
     System(m, 1, map[], Two(n, a, Opening(scope, 1), b, Idle), 0, []),
     System(m, 1, map[], Two(n, a, Opened(scope, 1, 0), b, Idle), 1, []),
     System(m, 1, cold, Two(n, a, Using(scope, 0, false, []), b, Idle), 1, []),
     System(m, 2, cold, Two(n, a, Using(scope, 0, false, []), b, Arrived(scope, 2)), 1, []),
     System(m, 2, used, Two(n, a, Using(scope, 0, false, []), b, Using(scope, 0, true, [])), 1, []),
     System(m, 2, map[], Two(n, a, Leaving(scope, 0, [0]), b, Using(scope, 0, true, [])), 1, []),
     System(m, 2, map[], Two(n, a, Leaving(scope, 0, []), b, Using(scope, 0, true, [])), 1, [0])]
  }

  ghost predicate Leads(s: System, step: Step, s': System) { Enabled(s, step) && Apply(s, step) == s' }

  /** Updating one of the two. */
  lemma TwoUpdates(n: nat, a: nat, x: Task, b: nat, y: Task, z: Task)
    requires a < n && b < n && a != b
    ensures Two(n, a, x, b, y)[a := z] == Two(n, a, z, b, y)
    ensures Two(n, a, x, b, y)[b := z] == Two(n, a, x, b, z)
    ensures Idles(n)[a := z] == Two(n, a, z, b, Idle)
  {
  }

  lemma SharedFirst(m: nat, n: nat, scope: Scope, a: nat, b: nat, i: nat)
    requires a < n && b < n && a != b && m > 0 && i < 4
    ensures Leads(SharedTrace(m, n, scope, a, b)[i], SharedSteps(scope, a, b)[i], SharedTrace(m, n, scope, a, b)[i + 1])
  {
    hide Two, Idles, Borrowed;
    var all := SharedTrace(m, n, scope, a, b);
    TwoUpdates(n, a, all[i].tasks[a], b, Idle, all[i + 1].tasks[a]);
  }

  lemma SharedSecond(m: nat, n: nat, scope: Scope, a: nat, b: nat, i: nat)
    requires a < n && b < n && a != b && 4 <= i < 6
    ensures Leads(SharedTrace(m, n, scope, a, b)[i], SharedSteps(scope, a, b)[i], SharedTrace(m, n, scope, a, b)[i + 1])
  {
    hide Two, Idles, Borrowed;
    var all := SharedTrace(m, n, scope, a, b);
    TwoUpdates(n, a, all[i].tasks[a], b, all[i].tasks[b], all[i + 1].tasks[b]);
  }

  lemma SharedFailure(m: nat, n: nat, scope: Scope, a: nat, b: nat)
    requires a < n && b < n && a != b
    ensures Leads(SharedTrace(m, n, scope, a, b)[6], SharedSteps(scope, a, b)[6], SharedTrace(m, n, scope, a, b)[7])
  {
    hide Two, Idles, Borrowed;
    var all := SharedTrace(m, n, scope, a, b);
    TwoUpdates(n, a, all[6].tasks[a], b, all[6].tasks[b], all[7].tasks[a]);
    assert all[6].clusters - {scope} == map[];
  }

  lemma SharedClose(m: nat, n: nat, scope: Scope, a: nat, b: nat)
    requires a < n && b < n && a != b
    ensures Leads(SharedTrace(m, n, scope, a, b)[7], SharedSteps(scope, a, b)[7], SharedTrace(m, n, scope, a, b)[8])
  {
    hide Two, Idles, Borrowed;
    var all := SharedTrace(m, n, scope, a, b);
    TwoUpdates(n, a, all[7].tasks[a], b, all[7].tasks[b], all[8].tasks[a]);
    assert ClosingOf(all[7].tasks[a])[1..] == [];
  }

  lemma {:induction false} FollowTrace(all: seq<System>, work: seq<Scope>, steps: seq<Step>, i: nat)
    requires |all| == |steps| + 1 && i <= |steps| && forall k :: 0 <= k < |all| ==> |all[k].tasks| == |work|
    requires forall k :: 0 <= k < |steps| ==> Leads(all[k], steps[k], all[k + 1]) && GivenStep(all[k], work, steps[k])
    ensures ValidRun(all[i], steps[i..]) && Run(all[i], steps[i..]) == all[|steps|] && Given(all[i], work, steps[i..])
    decreases |steps| - i
  {
    hide Enabled, Apply, GivenStep;
    if i < |steps| {
      FollowTrace(all, work, steps, i + 1);
      assert steps[i..][1..] == steps[i + 1..];
    }
  }

  lemma SharedGiven(m: nat, work: seq<Scope>, a: nat, b: nat, k: nat)
    requires a < |work| && b < |work| && a != b && work[a] == work[b] && m > 0 && k < 8
    ensures var all := SharedTrace(m, |work|, work[a], a, b); var step := SharedSteps(work[a], a, b)[k];
            Leads(all[k], step, all[k + 1]) && GivenStep(all[k], work, step)
  {
    if k < 4 {
      SharedFirst(m, |work|, work[a], a, b, k);
    } else if k < 6 {
      SharedSecond(m, |work|, work[a], a, b, k);
    } else if k == 6 {
      SharedFailure(m, |work|, work[a], a, b);
    } else {
      SharedClose(m, |work|, work[a], a, b);
    }
  }

  lemma SharedWorkUsesClosed(m: nat, work: seq<Scope>, a: nat, b: nat)
    requires a < |work| && b < |work| && a != b && work[a] == work[b] && m > 0
    ensures !BatchUsesOpen(m, work)
  {
    var all, steps := SharedTrace(m, |work|, work[a], a, b), SharedSteps(work[a], a, b);
    assert Init(all[0]) && AllIdle(all[0]);
    assert all[8].tasks[b].Using? && all[8].tasks[b].reader in all[8].closed;
    assert !UsesOpen(all[8]);
    assert |steps| == 8;
    assert Reachable(all[0]) by {
      assert ValidRun(all[0], []) && Run(all[0], []) == all[0];
    }
    hide Enabled, Apply, Leads, GivenStep, SharedTrace, SharedSteps, UsesOpen, Reachable, AllIdle, Init;
    forall k | 0 <= k < |steps| ensures Leads(all[k], steps[k], all[k + 1]) && GivenStep(all[k], work, steps[k]) {
      SharedGiven(m, work, a, b, k);
    }
    FollowTrace(all, work, steps, 0);
    assert steps[0..] == steps;
  }

  /** For every assignment of scopes to a batch's tasks: no run of the batch ever
      uses a closed reader if and only if no two tasks share a scope. */
  lemma BatchUsesOpenExactly(maxOpen: nat, work: seq<Scope>)
    requires maxOpen > 0
    ensures BatchUsesOpen(maxOpen, work) <==> NoDup(work)
  {
    if NoDup(work) {
      forall s, steps |
        Reachable(s) && AllIdle(s) && s.maxOpen == maxOpen && |s.tasks| == |work| && ValidRun(s, steps)
            && Given(s, work, steps)
        ensures UsesOpen(Run(s, steps))
      {
        DistinctWorkUsesOpen(s, work, steps);
      }
    } else {
      var a, b :| 0 <= a < b < |work| && work[a] == work[b];
      SharedWorkUsesClosed(maxOpen, work, a, b);
    }
  }
}
