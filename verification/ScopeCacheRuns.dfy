/** Tasks sharing the reader cache. Every step is one locked section, one open
    or one close; between steps, tasks interleave freely. */
module ScopeCacheRuns {
  import opened Basics
  import opened ScopeCache

  /** Where a task is. `closing` lists the readers it has taken out of the cache
      (or failed to put in) and closes before it goes on; `forced` marks readers
      taken out without asking whether anyone holds them. */
  datatype Task =
    | Idle
    | Arrived(scope: Scope, access: nat)
    | Opening(scope: Scope, access: nat)
    | Opened(scope: Scope, access: nat, reader: nat)
    | Using(scope: Scope, reader: nat, hit: bool, closing: seq<nat>)
    | Leaving(scope: Scope, reader: nat, closing: seq<nat>)
    | Closing(forced: bool, closing: seq<nat>)

  datatype System = System(
    maxOpen: nat,
    clock: nat,
    clusters: Clusters,
    tasks: seq<Task>,
    next: nat,
    closed: seq<nat>)

  datatype Step =
    | Arrive(t: nat, scope: Scope)
    | Lookup(t: nat)
    | OpenDone(t: nat)
    | OpenFailed(t: nat)
    | Admit(t: nat, a: Admission)
    | CloseOne(t: nat)
    | Finish(t: nat, built: bool)
    | Invalidate(t: nat)
    | InvalidateScope(t: nat, scope: Scope)
    | Retain(t: nat, registered: set<Scope>, order: seq<Scope>)
    | CloseAll(t: nat, order: seq<Scope>)
    | Leave(t: nat)

  function ClosingOf(x: Task): seq<nat> {
    match x
    case Using(_, _, _, closing) => closing
    case Leaving(_, _, closing) => closing
    case Closing(_, closing) => closing
    case _ => []
  }

  function WithClosing(x: Task, closing: seq<nat>): Task
    requires x.Using? || x.Leaving? || x.Closing?
  {
    match x
    case Using(scope, reader, hit, _) => Using(scope, reader, hit, closing)
    case Leaving(scope, reader, _) => Leaving(scope, reader, closing)
    case Closing(forced, _) => Closing(forced, closing)
  }

  /** The reader a task holds a handle on while using it. */
  function Handle(x: Task): Option<nat> {
    match x
    case Opened(_, _, reader) => Some(reader)
    case Using(_, reader, _, _) => Some(reader)
    case Leaving(_, reader, _) => Some(reader)
    case _ => None
  }

  function Borrowed(s: System): set<nat> {
    set t | 0 <= t < |s.tasks| && Handle(s.tasks[t]).Some? :: Handle(s.tasks[t]).value
  }

  ghost predicate Init(s: System) {
    s.clusters == map[] && s.closed == [] && s.next == 0
    && forall t :: 0 <= t < |s.tasks| ==> s.tasks[t] == Idle
  }

  ghost predicate Enabled(s: System, step: Step) {
    step.t < |s.tasks| &&
    var x := s.tasks[step.t];
    match step
    case Arrive(_, _) => x.Idle?
    case Lookup(_) => x.Arrived?
    case OpenDone(_) => x.Opening?
    case OpenFailed(_) => x.Opening?
    case Admit(_, a) => x.Opened? && AdmissionFor(s.clusters, s.maxOpen, Borrowed(s), x.scope, a)
    case CloseOne(_) => ClosingOf(x) != []
    case Finish(_, _) => x.Using? && x.closing == []
    case Invalidate(_) => x.Using? && x.closing == []
    case InvalidateScope(_, _) => x.Idle?
    case Retain(_, registered, order) => x.Idle? && NoDup(order)
        && Elems(order) == Stale(s.clusters, registered, Borrowed(s))
    case CloseAll(_, order) => x.Idle? && NoDup(order) && Elems(order) == s.clusters.Keys
    case Leave(_) => (x.Leaving? || x.Closing?) && x.closing == []
  }

  function WithTask(s: System, t: nat, x: Task): System
    requires t < |s.tasks|
  {
    s.(tasks := s.tasks[t := x])
  }

  /** Entries leave the cache and wait to be closed by whoever took them. */
  function ReadersOf(c: Clusters, order: seq<Scope>): (r: seq<nat>)
    requires forall sc :: sc in order ==> sc in c
    ensures |r| == |order| && forall i :: 0 <= i < |r| ==> r[i] == c[order[i]].reader
  {
    seq(|order|, i requires 0 <= i < |order| => assert order[i] in order; c[order[i]].reader)
  }

  function Removed(s: System, t: nat, order: seq<Scope>, x: Task): System
    requires t < |s.tasks|
  {
    WithTask(s, t, x).(clusters := s.clusters - Elems(order))
  }

  function SelectedBy(c: Clusters, x: Task, a: Admission): Task
    requires x.Opened? && (a.Duplicate? ==> x.scope in c) && (a.Evicts? ==> a.victim in c)
  {
    match a
    case Duplicate => Using(x.scope, c[x.scope].reader, false, [x.reader])
    case Fits => Using(x.scope, x.reader, false, [])
    case Evicts(victim) => Using(x.scope, x.reader, false, [c[victim].reader])
    case Full => Closing(false, [x.reader])
  }

  ghost function Apply(s: System, step: Step): System
    requires Enabled(s, step)
  {
    var x := s.tasks[step.t];
    match step
    case Arrive(t, scope) => WithTask(s, t, Arrived(scope, s.clock + 1)).(clock := s.clock + 1)
    case Lookup(t) =>
      if x.scope in s.clusters then
        WithTask(s, t, Using(x.scope, s.clusters[x.scope].reader, true, []))
        .(clusters := Touched(s.clusters, x.scope, x.access))
      else WithTask(s, t, Opening(x.scope, x.access))
    case OpenDone(t) => WithTask(s, t, Opened(x.scope, x.access, s.next)).(next := s.next + 1)
    case OpenFailed(t) => WithTask(s, t, Idle)
    case Admit(t, a) =>
      WithTask(s, t, SelectedBy(s.clusters, x, a)).(clusters := Admitted(s.clusters, x.scope, x.reader, x.access, a))
    case CloseOne(t) =>
      var closing := ClosingOf(x);
      WithTask(s, t, WithClosing(x, closing[1..])).(closed := s.closed + [closing[0]])
    case Finish(t, built) =>
      var v := FinishVerdict(s.clusters, x.scope, x.reader, x.hit, built);
      WithTask(s, t, Leaving(x.scope, x.reader, if v.Drop? then [x.reader] else []))
      .(clusters := AfterVerdict(s.clusters, x.scope, v))
    case Invalidate(t) =>
      if x.scope in s.clusters && s.clusters[x.scope].reader == x.reader
      then WithTask(s, t, Leaving(x.scope, x.reader, [x.reader])).(clusters := s.clusters - {x.scope})
      else WithTask(s, t, Leaving(x.scope, x.reader, []))
    case InvalidateScope(t, scope) =>
      if scope in s.clusters
      then WithTask(s, t, Closing(true, [s.clusters[scope].reader])).(clusters := s.clusters - {scope})
      else WithTask(s, t, Closing(true, []))
    case Retain(t, registered, order) => Removed(s, t, order, Closing(false, ReadersIn(s.clusters, order)))
    case CloseAll(t, order) => Removed(s, t, order, Closing(true, ReadersIn(s.clusters, order)))
    case Leave(t) => WithTask(s, t, Idle)
  }

  function ReadersIn(c: Clusters, order: seq<Scope>): seq<nat>
    requires Elems(order) <= c.Keys
  {
    assert forall sc :: sc in order ==> sc in Elems(order);
    ReadersOf(c, order)
  }

  ghost predicate ValidRun(s: System, steps: seq<Step>)
    decreases |steps|
  {
    steps == [] || (Enabled(s, steps[0]) && ValidRun(Apply(s, steps[0]), steps[1..]))
  }

  ghost function Run(s: System, steps: seq<Step>): System
    requires ValidRun(s, steps)
    decreases |steps|
  {
    if steps == [] then s else Run(Apply(s, steps[0]), steps[1..])
  }

  // Where a reader is.

  datatype Place = InFlight(t: nat) | CachedAt(scope: Scope) | Pending(t: nat) | Shut

  ghost predicate At(s: System, r: nat, p: Place) {
    match p
    case InFlight(t) => t < |s.tasks| && s.tasks[t].Opened? && s.tasks[t].reader == r
    case CachedAt(scope) => scope in s.clusters && s.clusters[scope].reader == r
    case Pending(t) => t < |s.tasks| && r in ClosingOf(s.tasks[t])
    case Shut => r in s.closed
  }

  /** `place` says where every reader ever opened is, and nothing is anywhere else. */
  ghost predicate Placed(s: System, place: map<nat, Place>) {
    && (forall r: nat :: r in place <==> r < s.next)
    && (forall r: nat, p: Place :: At(s, r, p) <==> r in place && place[r] == p)
    && NoDup(s.closed)
    && forall t :: 0 <= t < |s.tasks| ==> NoDup(ClosingOf(s.tasks[t]))
  }
}
