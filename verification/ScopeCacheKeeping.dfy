/** What stays in the reader cache, and for how long. */
module ScopeCacheKeeping {
  import opened Basics
  import opened ScopeCache
  import opened ScopeCacheRuns
  import opened ScopeCacheSafety

  // A built scope stays cached and hot.

  /** The scope is cached with reader `r`, hot, after so many idle rechecks. */
  ghost predicate Warm(s: System, sc: Scope, r: nat, idle: nat) {
    sc in s.clusters && s.clusters[sc] == Entry(r, s.clusters[sc].lastUsed, true, idle)
  }

  ghost predicate Cached(s: System, sc: Scope, r: nat) {
    sc in s.clusters && s.clusters[sc].reader == r && s.clusters[sc].hot
  }

  predicate Uses(s: System, t: nat, sc: Scope, r: nat) {
    t < |s.tasks| && s.tasks[t].Using? && s.tasks[t].scope == sc && s.tasks[t].reader == r
  }

  /** The step is none that takes the scope out: an eviction, an invalidation, the
      removal of the unregistered scope while nobody holds its reader, the end of
      the cache, a look that found nothing to build by a task that had opened the
      scope itself, or the second such look by one that had found it. */
  ghost predicate Spares(s: System, step: Step, sc: Scope, r: nat, idle: nat) {
    match step
    case Admit(_, a) => a != Evicts(sc)
    case Finish(t, built) => Uses(s, t, sc, r) && !built ==> s.tasks[t].hit && idle == 0
    case Invalidate(t) => !Uses(s, t, sc, r)
    case InvalidateScope(_, scope) => scope != sc
    case Retain(_, registered, _) => sc in registered || r in Borrowed(s)
    case CloseAll(_, _) => false
    case _ => true
  }

  /** Idle rechecks since the last build. */
  function IdleAfter(s: System, step: Step, sc: Scope, r: nat, idle: nat): nat {
    match step
    case Finish(t, built) => if !Uses(s, t, sc, r) then idle else if built then 0 else idle + 1
    case _ => idle
  }

  lemma WarmStep(s: System, step: Step, sc: Scope, r: nat, idle: nat)
    requires Warm(s, sc, r, idle) && Enabled(s, step)
    ensures Spares(s, step, sc, r, idle) ==> Warm(Apply(s, step), sc, r, IdleAfter(s, step, sc, r, idle))
    ensures !Spares(s, step, sc, r, idle) ==> sc !in Apply(s, step).clusters
  {
    hide IsVictim, Borrowed;
  }

  ghost predicate SparedThroughout(s: System, steps: seq<Step>, sc: Scope, r: nat, idle: nat)
    requires ValidRun(s, steps)
    decreases |steps|
  {
    steps == [] ||
    (Spares(s, steps[0], sc, r, idle)
     && SparedThroughout(Apply(s, steps[0]), steps[1..], sc, r, IdleAfter(s, steps[0], sc, r, idle)))
  }

  ghost predicate CachedThroughout(s: System, steps: seq<Step>, sc: Scope, r: nat)
    requires ValidRun(s, steps)
    decreases |steps|
  {
    Cached(s, sc, r) && (steps == [] || CachedThroughout(Apply(s, steps[0]), steps[1..], sc, r))
  }

  lemma {:induction false} WarmThroughout(s: System, steps: seq<Step>, sc: Scope, r: nat, idle: nat)
    requires Warm(s, sc, r, idle) && ValidRun(s, steps)
    ensures CachedThroughout(s, steps, sc, r) <==> SparedThroughout(s, steps, sc, r, idle)
    decreases |steps|
  {
    hide Enabled, Apply, Spares;
    if steps != [] {
      WarmStep(s, steps[0], sc, r, idle);
      var t := Apply(s, steps[0]);
      if Spares(s, steps[0], sc, r, idle) {
        WarmThroughout(t, steps[1..], sc, r, IdleAfter(s, steps[0], sc, r, idle));
      } else {
        NotCached(t, steps[1..], sc, r);
      }
    }
  }

  lemma NotCached(s: System, steps: seq<Step>, sc: Scope, r: nat)
    requires ValidRun(s, steps) && sc !in s.clusters
    ensures !CachedThroughout(s, steps, sc, r)
  {
  }

  /** Over whole runs: once a task has built, its scope stays cached with the same
      reader and hot, at every moment, if and only if no step takes it out. */
  lemma BuiltStaysHot(s: System, t: nat, steps: seq<Step>)
    requires Enabled(s, Finish(t, true)) && ValidRun(Apply(s, Finish(t, true)), steps)
    requires Holds(s.clusters, s.tasks[t].scope, s.tasks[t].reader)
    ensures var (sc, r) := (s.tasks[t].scope, s.tasks[t].reader);
            CachedThroughout(Apply(s, Finish(t, true)), steps, sc, r) <==>
              SparedThroughout(Apply(s, Finish(t, true)), steps, sc, r, 0)
  {
    var sc, r, u := s.tasks[t].scope, s.tasks[t].reader, Apply(s, Finish(t, true));
    assert Warm(u, sc, r, 0);
    WarmThroughout(u, steps, sc, r, 0);
  }

  // Eviction takes the longest unused.

  /** The access number of the last task that found the scope cached, or put or
      found it there after opening. */
  ghost function LastTouch(s: System, steps: seq<Step>, sc: Scope, was: nat): nat
    requires ValidRun(s, steps)
    decreases |steps|
  {
    if steps == [] then was
    else LastTouch(Apply(s, steps[0]), steps[1..], sc, TouchBy(s, steps[0], sc, was))
  }

  ghost function TouchBy(s: System, step: Step, sc: Scope, was: nat): nat
    requires Enabled(s, step)
  {
    match step
    case Lookup(t) => if s.tasks[t].scope == sc && sc in s.clusters then s.tasks[t].access else was
    case Admit(t, a) => if s.tasks[t].scope == sc && !a.Full? then s.tasks[t].access else was
    case _ => was
  }

  lemma StampStep(s: System, step: Step, sc: Scope, was: nat)
    requires Enabled(s, step) && (sc in s.clusters ==> s.clusters[sc].lastUsed == was)
    ensures sc in Apply(s, step).clusters ==> Apply(s, step).clusters[sc].lastUsed == TouchBy(s, step, sc, was)
  {
    hide IsVictim, Borrowed;
  }

  lemma {:induction false} StampsFollow(s: System, steps: seq<Step>, sc: Scope, was: nat)
    requires ValidRun(s, steps) && (sc in s.clusters ==> s.clusters[sc].lastUsed == was)
    ensures sc in Run(s, steps).clusters ==> Run(s, steps).clusters[sc].lastUsed == LastTouch(s, steps, sc, was)
    decreases |steps|
  {
    hide Enabled, Apply, TouchBy;
    if steps != [] {
      StampStep(s, steps[0], sc, was);
      StampsFollow(Apply(s, steps[0]), steps[1..], sc, TouchBy(s, steps[0], sc, was));
    }
  }

  /** In every run from an empty cache, an eviction takes a scope that nobody holds
      and that was touched no later than any other such scope. */
  lemma LongestUnusedIsEvicted(start: System, steps: seq<Step>, t: nat, victim: Scope, other: Scope)
    requires Init(start) && ValidRun(start, steps) && Enabled(Run(start, steps), Admit(t, Evicts(victim)))
    requires var s := Run(start, steps);
             other in s.clusters && forall i :: 0 <= i < |s.tasks| ==>
                 Handle(s.tasks[i]) != Some(s.clusters[other].reader)
    ensures LastTouch(start, steps, victim, 0) <= LastTouch(start, steps, other, 0)
    ensures var s := Run(start, steps);
            victim in s.clusters && forall i :: 0 <= i < |s.tasks| ==>
                Handle(s.tasks[i]) != Some(s.clusters[victim].reader)
  {
    var s := Run(start, steps);
    StampsFollow(start, steps, victim, 0);
    StampsFollow(start, steps, other, 0);
    assert s.clusters[other].reader !in Borrowed(s);
    forall i | 0 <= i < |s.tasks| ensures Handle(s.tasks[i]) != Some(s.clusters[victim].reader) {
      assert Handle(s.tasks[i]).Some? ==> Handle(s.tasks[i]).value in Borrowed(s);
    }
  }

  // Access numbers order arrivals.

  function AccessOf(x: Task): nat { if x.Arrived? || x.Opening? || x.Opened? then x.access else 0 }

  ghost predicate Clocked(s: System) {
    && (forall sc :: sc in s.clusters ==> s.clusters[sc].lastUsed <= s.clock)
    && (forall i :: 0 <= i < |s.tasks| ==> AccessOf(s.tasks[i]) <= s.clock)
  }

  lemma ClockedStep(s: System, step: Step)
    requires Clocked(s) && Enabled(s, step)
    ensures Clocked(Apply(s, step))
  {
    StampsClocked(s, step);
    TasksClocked(s, step);
    hide Enabled, Apply;
  }

  lemma StampsClocked(s: System, step: Step)
    requires Clocked(s) && Enabled(s, step)
    ensures s.clock <= Apply(s, step).clock
    ensures forall sc :: sc in Apply(s, step).clusters ==> Apply(s, step).clusters[sc].lastUsed <= s.clock
  {
    hide IsVictim, Borrowed, ReadersIn, Stale, SelectedBy;
  }

  lemma TasksClocked(s: System, step: Step)
    requires Clocked(s) && Enabled(s, step)
    ensures var u := Apply(s, step);
            |u.tasks| == |s.tasks| && forall i :: 0 <= i < |u.tasks| ==> AccessOf(u.tasks[i]) <= u.clock
  {
    OneTaskActs(s, step);
    OwnAccess(s, step);
    hide Enabled, Apply, AccessOf;
  }

  lemma OwnAccess(s: System, step: Step)
    requires Clocked(s) && Enabled(s, step)
    ensures s.clock <= Apply(s, step).clock && step.t < |Apply(s, step).tasks|
    ensures AccessOf(Apply(s, step).tasks[step.t]) <= Apply(s, step).clock
  {
    hide IsVictim, Borrowed, ReadersIn, Stale, Admitted, AfterVerdict, FinishVerdict;
    assert AccessOf(s.tasks[step.t]) <= s.clock;
  }

  lemma {:induction false} ClockedRun(s: System, steps: seq<Step>)
    requires Clocked(s) && ValidRun(s, steps)
    ensures Clocked(Run(s, steps))
    decreases |steps|
  {
    hide Enabled, Apply, Clocked;
    if steps != [] {
      ClockedStep(s, steps[0]);
      ClockedRun(Apply(s, steps[0]), steps[1..]);
    }
  }

  /** In every run, a task that arrives gets a later number than every task before
      it and every stamp in the cache. */
  lemma ArrivalsAreNumbered(start: System, steps: seq<Step>, t: nat, scope: Scope)
    requires Init(start) && ValidRun(start, steps) && Enabled(Run(start, steps), Arrive(t, scope))
    ensures var s := Run(start, steps); var access := AccessOf(Apply(s, Arrive(t, scope)).tasks[t]);
            && (forall sc :: sc in s.clusters ==> s.clusters[sc].lastUsed < access)
            && (forall i :: 0 <= i < |s.tasks| ==> AccessOf(s.tasks[i]) < access)
  {
    hide Run, ValidRun;
    ClockedRun(start, steps);
  }
}
