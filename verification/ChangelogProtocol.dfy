/** Commits, index builders and changelog collection, interleaved. */
module ChangelogProtocol {
  import opened Basics
  import opened Rows
  import opened Changelog

  datatype Generation = Generation(base: nat, edges: set<Edge>)

  /** A pinned read view. `since` only serves the proofs: the entries of commits
      up to `since` were never logged, or purged. */
  datatype Snapshot = Snapshot(base: nat, kept: set<LogEntry>, low: Option<nat>, since: nat)

  /** A build pins its view first and reads the published manifest after. */
  datatype Builder = Idle | Pinned(snap: Snapshot) | Ready(snap: Snapshot, previous: Option<Generation>)

  datatype State = State(
    h: History,
    since: nat,
    kept: set<LogEntry>,
    low: Option<nat>,
    published: Option<Generation>,
    builders: seq<Builder>)

  datatype Step =
    | Commit(changes: Changes, floorCached: bool)
    | Pin(b: nat)
    | ReadManifest(b: nat)
    | FinishIncremental(b: nat, replace: bool)
    | FinishFull(b: nat, replace: bool)
    | Abandon(b: nat)
    | Collect(through: nat, gone: set<LogEntry>, capped: bool, last: nat)
    | Repair
    | Purge

  function EntriesOf(s: nat, changes: Changes): set<LogEntry> { set e | e in changes :: (s, e) }

  ghost predicate Init(s: State) {
    && s.since == |s.h| && s.kept == {} && s.low.None?
    && (s.published.Some? ==> Exact(s.h, s.published.value))
    && forall b :: 0 <= b < |s.builders| ==> s.builders[b] == Idle
  }

  /** The generation is what a full rebuild at its base would give. */
  ghost predicate Exact(h: History, g: Generation) {
    g.base <= |h| && g.edges == EdgesAt(h, g.base)
  }

  /** Collection deletes entries no later than a published base, in key order,
      and moves the floor: to just past that base, or, when the pass is cut
      short, to the last commit it touched. */
  ghost predicate CollectAllowed(s: State, through: nat, gone: set<LogEntry>, capped: bool, last: nat) {
    && s.published.Some? && through <= s.published.value.base
    && s.low.Some? && s.low.value <= through
    && gone != {} && (forall x :: x in gone ==> x in s.kept && s.low.value <= x.0 <= through)
    && LastTouched(gone, last)
    && (forall x :: x in s.kept && s.low.value <= x.0 < last ==> x in gone)
    && (!capped ==> forall x :: x in s.kept && s.low.value <= x.0 <= through ==> x in gone)
  }

  ghost predicate LastTouched(gone: set<LogEntry>, n: nat) {
    (exists x :: x in gone && x.0 == n) && forall x :: x in gone ==> x.0 <= n
  }

  /** The coverage test of the incremental build. */
  predicate Covered(snap: Snapshot, previous: Generation) {
    snap.low.Some? && previous.base + 1 >= snap.low.value
  }

  ghost predicate Enabled(s: State, step: Step) {
    match step
    case Commit(_, _) => true
    case Pin(b) => b < |s.builders| && s.builders[b].Idle?
    case ReadManifest(b) => b < |s.builders| && s.builders[b].Pinned?
    case FinishIncremental(b, _) =>
      && b < |s.builders| && s.builders[b].Ready? && s.builders[b].previous.Some?
      && s.builders[b].snap.base <= |s.h|
      && (s.builders[b].previous.value.base < s.builders[b].snap.base ==>
          Covered(s.builders[b].snap, s.builders[b].previous.value))
    case FinishFull(b, _) => b < |s.builders| && !s.builders[b].Idle? && s.builders[b].snap.base <= |s.h|
    case Abandon(b) => b < |s.builders|
    case Collect(through, gone, capped, last) => CollectAllowed(s, through, gone, capped, last)
    case Repair => s.low.None? && s.published.Some?
    case Purge => true
  }

  /** Publication keeps the newer base; between equals either may stand. */
  function Publish(current: Option<Generation>, proposed: Generation, replace: bool): Option<Generation> {
    if current.None? || current.value.base < proposed.base || (current.value.base == proposed.base && replace)
    then Some(proposed) else current
  }

  ghost function IncrementalOf(h: History, snap: Snapshot, previous: Generation): Generation
    requires snap.base <= |h|
  {
    Generation(snap.base, Applied(previous.edges, Resolved(h, snap.kept, previous.base, snap.base)))
  }

  function WithBuilder(s: State, b: nat, x: Builder): State
    requires b < |s.builders|
  {
    s.(builders := s.builders[b := x])
  }

  /** Collection, repair and purge are writes of their own: each advances the
      sequence by a commit that changes no edge. */
  ghost function Apply(s: State, step: Step): State
    requires Enabled(s, step)
  {
    match step
    case Commit(changes, floorCached) =>
      var n := |s.h| + 1;
      s.(h := s.h + [changes], kept := s.kept + EntriesOf(n, changes),
         low := if s.low.None? && !floorCached && changes != map[] then Some(n) else s.low)
    case Pin(b) => WithBuilder(s, b, Pinned(Snapshot(|s.h|, s.kept, s.low, s.since)))
    case ReadManifest(b) => WithBuilder(s, b, Ready(s.builders[b].snap, s.published))
    case FinishIncremental(b, replace) =>
      var x := s.builders[b];
      if x.previous.value.base >= x.snap.base then WithBuilder(s, b, Idle)
      else
        var g := IncrementalOf(s.h, x.snap, x.previous.value);
        WithBuilder(s, b, Idle).(published := Publish(s.published, g, replace))
    case FinishFull(b, replace) =>
      var base := s.builders[b].snap.base;
      WithBuilder(s, b, Idle).(published := Publish(s.published, Generation(base, EdgesAt(s.h, base)), replace))
    case Abandon(b) => WithBuilder(s, b, Idle)
    case Collect(through, gone, capped, last) =>
      s.(h := s.h + [map[]], kept := s.kept - gone, low := Some(if capped then Max(s.low.value, last) else through + 1))
    case Repair => s.(h := s.h + [map[]], low := Some(|s.h|))
    case Purge => s.(h := s.h + [map[]], kept := {}, low := None, since := |s.h|)
  }

  ghost predicate ValidRun(s: State, steps: seq<Step>)
    decreases |steps|
  {
    steps == [] || (Enabled(s, steps[0]) && ValidRun(Apply(s, steps[0]), steps[1..]))
  }

  ghost function Run(s: State, steps: seq<Step>): State
    requires ValidRun(s, steps)
    decreases |steps|
  {
    if steps == [] then s else Run(Apply(s, steps[0]), steps[1..])
  }

  // The invariant.

  function Floor(published: Option<Generation>): nat { if published.Some? then published.value.base else 0 }

  /** Commit `n` left the edges as they were. */
  ghost predicate Quiet(h: History, n: nat) {
    1 <= n <= |h| && EdgesAt(h, n) == EdgesAt(h, n - 1)
  }

  /** No generation based just before commit `n` is published, nor can one still
      be: a builder working at that base comes too late or there is none. */
  ghost predicate Excluded(s: State, n: nat) {
    && (s.published.Some? ==> s.published.value.base + 1 != n)
    && forall b :: 0 <= b < |s.builders| && !s.builders[b].Idle? ==>
         s.builders[b].snap.base + 1 != n || (s.published.Some? && s.published.value.base >= n)
  }

  /** The view holds whatever a build from a generation based at `floor` or later
      could need, and nothing older than `since`. */
  ghost predicate ViewOk(h: History, snap: Snapshot, floor: nat) {
    && snap.base <= |h| && snap.since <= |h|
    && Covers(h, snap.kept, Max(floor, snap.since), snap.base)
    && forall x :: x in snap.kept ==> x.0 > snap.since
  }

  /** The floor claims only logged commits; or it also claims the last unlogged
      one, which does no harm if that commit was quiet or no generation lies just
      before it. */
  ghost predicate FloorOk(s: State, low: Option<nat>, since: nat) {
    low.Some? ==>
      low.value > since || since == 0 || (low.value == since && (Quiet(s.h, since) || Excluded(s, since)))
  }

  /** The same for a build that has read its previous generation. */
  ghost predicate StartOk(h: History, snap: Snapshot, previous: Generation) {
    Covered(snap, previous) ==>
      previous.base >= snap.since || (previous.base + 1 == snap.since && Quiet(h, snap.since))
  }

  ghost predicate BuilderOk(s: State, x: Builder) {
    match x
    case Idle => true
    case Pinned(snap) => ViewOk(s.h, snap, Floor(s.published)) && FloorOk(s, snap.low, snap.since)
    case Ready(snap, previous) =>
      ViewOk(s.h, snap, Floor(previous))
      && (previous.Some? ==> Exact(s.h, previous.value) && StartOk(s.h, snap, previous.value))
  }

  ghost function View(s: State): Snapshot { Snapshot(|s.h|, s.kept, s.low, s.since) }

  ghost predicate BuildersOk(s: State) {
    forall b :: 0 <= b < |s.builders| ==> BuilderOk(s, s.builders[b])
  }

  ghost predicate Inv(s: State) {
    && ViewOk(s.h, View(s), Floor(s.published)) && FloorOk(s, s.low, s.since)
    && (s.published.Some? ==> Exact(s.h, s.published.value))
    && BuildersOk(s)
  }

  /** A floor repaired now, or after steps that commit nothing, would be sound. */
  ghost predicate RepairSafe(s: State) {
    |s.h| > s.since || s.since == 0 || Quiet(s.h, s.since) || Excluded(s, s.since)
  }

  // More history changes nothing about the past.

  lemma {:induction false} EdgesAtGrows(h: History, more: Changes, n: nat)
    requires n <= |h|
    ensures EdgesAt(h + [more], n) == EdgesAt(h, n)
  {
    if n > 0 { EdgesAtGrows(h, more, n - 1); }
  }

  lemma QuietGrows(h: History, more: Changes, n: nat)
    requires Quiet(h, n)
    ensures Quiet(h + [more], n)
  {
    EdgesAtGrows(h, more, n);
    EdgesAtGrows(h, more, n - 1);
  }

  lemma ViewGrows(h: History, more: Changes, snap: Snapshot, floor: nat)
    requires ViewOk(h, snap, floor)
    ensures ViewOk(h + [more], snap, floor)
  {
    assert forall i :: 0 <= i < |h| ==> (h + [more])[i] == h[i];
  }

  lemma ViewRises(h: History, snap: Snapshot, floor: nat, higher: nat)
    requires ViewOk(h, snap, floor) && floor <= higher
    ensures ViewOk(h, snap, higher)
  {
  }

  /** What a step keeps of an exclusion: bases only come from older views or lie
      at the present. */
  ghost predicate KeepsExclusions(s: State, t: State) {
    && (t.h == s.h || (|t.h| == |s.h| + 1 && s.h <= t.h))
    && forall n: nat :: n <= |s.h| && Excluded(s, n) ==> Excluded(t, n)
  }

  lemma FloorStays(s: State, t: State, low: Option<nat>, since: nat)
    requires FloorOk(s, low, since) && KeepsExclusions(s, t) && since <= |s.h|
    ensures FloorOk(t, low, since)
  {
    if Quiet(s.h, since) && t.h != s.h {
      assert t.h == s.h + [t.h[|s.h|]];
      QuietGrows(s.h, t.h[|s.h|], since);
    }
  }

  lemma BuilderGrows(s: State, t: State, more: Changes, x: Builder)
    requires BuilderOk(s, x) && t.h == s.h + [more] && t.published == s.published && KeepsExclusions(s, t)
    ensures BuilderOk(t, x)
  {
    hide Quiet, Excluded, EdgesAt;
    match x
    case Idle =>
    case Pinned(snap) =>
      ViewGrows(s.h, more, snap, Floor(s.published));
      FloorStays(s, t, snap.low, snap.since);
    case Ready(snap, previous) =>
      ViewGrows(s.h, more, snap, Floor(previous));
      if previous.Some? {
        EdgesAtGrows(s.h, more, previous.value.base);
        if Quiet(s.h, snap.since) { QuietGrows(s.h, more, snap.since); }
      }
  }

  /** A commit of any kind leaves builders and the published generation sound. */
  lemma HistoryGrows(s: State, t: State, more: Changes)
    requires Inv(s) && t.h == s.h + [more] && t.published == s.published && t.builders == s.builders
    ensures t.published.Some? ==> Exact(t.h, t.published.value)
    ensures BuildersOk(t) && KeepsExclusions(s, t)
  {
    if s.published.Some? { EdgesAtGrows(s.h, more, s.published.value.base); }
    assert KeepsExclusions(s, t);
    forall b | 0 <= b < |t.builders| ensures BuilderOk(t, t.builders[b]) {
      BuilderGrows(s, t, more, s.builders[b]);
    }
  }

  // Step by step.

  lemma CommitKeeps(s: State, changes: Changes, floorCached: bool)
    requires Inv(s)
    ensures Inv(Apply(s, Commit(changes, floorCached)))
  {
    var t := Apply(s, Commit(changes, floorCached));
    HistoryGrows(s, t, changes);
    FloorStays(s, t, s.low, s.since);
    var n := |s.h| + 1;
    forall i, e | Max(Floor(t.published), t.since) < i <= n && e in t.h[i - 1] ensures (i, e) in t.kept {
      if i < n { assert t.h[i - 1] == s.h[i - 1]; }
    }
  }

  lemma CollectKeeps(s: State, step: Step)
    requires Inv(s) && step.Collect? && Enabled(s, step)
    ensures Inv(Apply(s, step))
  {
    var t := Apply(s, step);
    HistoryGrows(s, t, map[]);
    FloorStays(s, t, s.low, s.since);
    hide Excluded, Quiet;
    var floor := Max(Floor(t.published), t.since);
    forall i, e | floor < i <= |t.h| && e in t.h[i - 1] ensures (i, e) in t.kept {
      assert i <= |s.h| && t.h[i - 1] == s.h[i - 1];
      assert (i, e) in s.kept;
    }
  }

  lemma RepairKeeps(s: State)
    requires Inv(s) && Enabled(s, Repair) && RepairSafe(s)
    ensures Inv(Apply(s, Repair))
  {
    var t := Apply(s, Repair);
    HistoryGrows(s, t, map[]);
    ViewGrows(s.h, map[], View(s), Floor(s.published));
    FloorStays(s, t, if |s.h| > s.since then None else Some(|s.h|), s.since);
    hide Excluded, Quiet;
    forall i, e | Max(Floor(t.published), t.since) < i <= |t.h| && e in t.h[i - 1] ensures (i, e) in t.kept {
      assert i <= |s.h| && t.h[i - 1] == s.h[i - 1];
    }
  }

  lemma PurgeKeeps(s: State)
    requires Inv(s)
    ensures Inv(Apply(s, Purge))
  {
    var t := Apply(s, Purge);
    HistoryGrows(s, t, map[]);
    assert t.h[|s.h|] == map[];
  }

  /** Without entries at or before `n`, reading from before `n` reads from `n`. */
  lemma {:induction false} ResolvedSkips(h: History, kept: set<LogEntry>, n: nat, hi: nat)
    requires 1 <= n <= hi <= |h| && forall x :: x in kept ==> x.0 > n
    ensures Resolved(h, kept, n - 1, hi) == Resolved(h, kept, n, hi)
    decreases hi
  {
    if hi == n {
      assert KeptAt(h, kept, n) == map[];
    } else {
      ResolvedSkips(h, kept, n, hi - 1);
    }
  }

  /** What an incremental build proposes is exact. */
  lemma IncrementalExact(s: State, b: nat)
    requires Inv(s) && b < |s.builders| && s.builders[b].Ready? && s.builders[b].previous.Some?
    requires s.builders[b].previous.value.base < s.builders[b].snap.base <= |s.h|
    requires Covered(s.builders[b].snap, s.builders[b].previous.value)
    ensures Exact(s.h, IncrementalOf(s.h, s.builders[b].snap, s.builders[b].previous.value))
  {
    var x := s.builders[b];
    assert BuilderOk(s, x);
    var p, snap := x.previous.value, x.snap;
    if p.base >= snap.since {
      assert Max(p.base, snap.since) == p.base;
      ResolvedIsDelta(s.h, snap.kept, p.base, snap.base);
    } else {
      assert Max(p.base, snap.since) == snap.since;
      ResolvedSkips(s.h, snap.kept, snap.since, snap.base);
      ResolvedIsDelta(s.h, snap.kept, snap.since, snap.base);
    }
  }

  lemma PublishExcludes(s: State, t: State, b: nat, g: Generation, replace: bool)
    requires b < |s.builders| && !s.builders[b].Idle? && g.base == s.builders[b].snap.base
    requires t == WithBuilder(s, b, Idle).(published := Publish(s.published, g, replace))
    ensures KeepsExclusions(s, t)
  {
  }

  lemma PublishKeeps(s: State, t: State, b: nat, g: Generation, replace: bool)
    requires Inv(s) && Exact(s.h, g) && b < |s.builders| && !s.builders[b].Idle? && g.base == s.builders[b].snap.base
    requires t == WithBuilder(s, b, Idle).(published := Publish(s.published, g, replace))
    ensures Inv(t)
  {
    PublishExcludes(s, t, b, g, replace);
    hide Excluded, Quiet;
    FloorStays(s, t, s.low, s.since);
    ViewRises(s.h, View(s), Floor(s.published), Floor(t.published));
    forall i | 0 <= i < |t.builders| ensures BuilderOk(t, t.builders[i]) {
      if i != b {
        assert BuilderOk(s, s.builders[i]);
        if s.builders[i].Pinned? {
          ViewRises(s.h, s.builders[i].snap, Floor(s.published), Floor(t.published));
          FloorStays(s, t, s.builders[i].snap.low, s.builders[i].snap.since);
        }
      }
    }
  }

  lemma IdleKeeps(s: State, b: nat)
    requires Inv(s) && b < |s.builders|
    ensures Inv(WithBuilder(s, b, Idle)) && KeepsExclusions(s, WithBuilder(s, b, Idle))
  {
    var t := WithBuilder(s, b, Idle);
    assert KeepsExclusions(s, t);
    hide Excluded, Quiet;
    FloorStays(s, t, s.low, s.since);
    forall i | 0 <= i < |t.builders| ensures BuilderOk(t, t.builders[i]) {
      if i != b {
        assert BuilderOk(s, s.builders[i]);
        if s.builders[i].Pinned? { FloorStays(s, t, s.builders[i].snap.low, s.builders[i].snap.since); }
      }
    }
  }

  lemma PinKeeps(s: State, b: nat)
    requires Inv(s) && Enabled(s, Pin(b))
    ensures Inv(Apply(s, Pin(b))) && KeepsExclusions(s, Apply(s, Pin(b)))
  {
    var t := Apply(s, Pin(b));
    assert KeepsExclusions(s, t);
    hide Excluded, Quiet;
    FloorStays(s, t, s.low, s.since);
    forall i | 0 <= i < |t.builders| ensures BuilderOk(t, t.builders[i]) {
      assert BuilderOk(s, s.builders[i]);
      if s.builders[i].Pinned? { FloorStays(s, t, s.builders[i].snap.low, s.builders[i].snap.since); }
    }
  }

  lemma ReadKeeps(s: State, b: nat)
    requires Inv(s) && Enabled(s, ReadManifest(b))
    ensures Inv(Apply(s, ReadManifest(b))) && KeepsExclusions(s, Apply(s, ReadManifest(b)))
  {
    var t := Apply(s, ReadManifest(b));
    assert KeepsExclusions(s, t);
    assert BuilderOk(s, s.builders[b]);
    assert s.published.Some? ==> StartOk(s.h, s.builders[b].snap, s.published.value);
    hide Excluded, Quiet;
    FloorStays(s, t, s.low, s.since);
    forall i | 0 <= i < |t.builders| ensures BuilderOk(t, t.builders[i]) {
      assert BuilderOk(s, s.builders[i]);
      if i != b && s.builders[i].Pinned? { FloorStays(s, t, s.builders[i].snap.low, s.builders[i].snap.since); }
    }
  }

  lemma FullExact(h: History, n: nat)
    requires n <= |h|
    ensures Exact(h, Generation(n, EdgesAt(h, n)))
  {
  }

  lemma FinishKeeps(s: State, step: Step)
    requires Inv(s) && Enabled(s, step) && (step.FinishIncremental? || step.FinishFull?)
    ensures Inv(Apply(s, step)) && KeepsExclusions(s, Apply(s, step))
  {
    hide Inv, Exact, KeepsExclusions, Excluded;
    var b := step.b;
    var x := s.builders[b];
    if step.FinishFull? {
      var g := Generation(x.snap.base, EdgesAt(s.h, x.snap.base));
      FullExact(s.h, x.snap.base);
      PublishKeeps(s, Apply(s, step), b, g, step.replace);
      PublishExcludes(s, Apply(s, step), b, g, step.replace);
    } else if x.previous.value.base >= x.snap.base {
      IdleKeeps(s, b);
    } else {
      var g := IncrementalOf(s.h, x.snap, x.previous.value);
      IncrementalExact(s, b);
      PublishKeeps(s, Apply(s, step), b, g, step.replace);
      PublishExcludes(s, Apply(s, step), b, g, step.replace);
    }
  }

  lemma StepKeeps(s: State, step: Step)
    requires Inv(s) && RepairSafe(s) && Enabled(s, step)
    ensures Inv(Apply(s, step)) && RepairSafe(Apply(s, step))
  {
    hide Inv, Exact, Excluded, Quiet;
    match step
    case Commit(changes, cached) => CommitKeeps(s, changes, cached); SinceBehind(s);
    case Pin(b) => PinKeeps(s, b); SinceBehind(s);
    case ReadManifest(b) => ReadKeeps(s, b); SinceBehind(s);
    case FinishIncremental(b, replace) => FinishKeeps(s, step); SinceBehind(s);
    case FinishFull(b, replace) => FinishKeeps(s, step); SinceBehind(s);
    case Abandon(b) => IdleKeeps(s, b); SinceBehind(s);
    case Collect(_, _, _, _) => CollectKeeps(s, step); SinceBehind(s);
    case Repair => RepairKeeps(s); SinceBehind(s);
    case Purge => PurgeKeeps(s);
  }

  lemma SinceBehind(s: State)
    requires Inv(s)
    ensures s.since <= |s.h|
  {
  }

  lemma {:induction false} RunKeeps(s: State, steps: seq<Step>)
    requires Inv(s) && RepairSafe(s) && ValidRun(s, steps)
    ensures Inv(Run(s, steps))
    decreases |steps|
  {
    hide Inv, Enabled, Apply, RepairSafe;
    if steps != [] {
      StepKeeps(s, steps[0]);
      RunKeeps(Apply(s, steps[0]), steps[1..]);
    }
  }

  // When published generations are exact.

  /** In every run from here, whatever is published is what a full rebuild at its
      base gives. */
  ghost predicate AlwaysExact(s: State) {
    forall steps :: ValidRun(s, steps) && Run(s, steps).published.Some? ==>
        Exact(Run(s, steps).h, Run(s, steps).published.value)
  }

  lemma SafeIsExact(s: State)
    requires Inv(s) && RepairSafe(s)
    ensures AlwaysExact(s)
  {
    hide RepairSafe;
    forall steps | ValidRun(s, steps) && Run(s, steps).published.Some?
      ensures Exact(Run(s, steps).h, Run(s, steps).published.value)
    {
      RunKeeps(s, steps);
    }
  }

  /** The entries kept for the last commit account for what it did. */
  ghost predicate LastAccounted(s: State) {
    |s.h| > 0 ==> Applied(EdgesAt(s.h, |s.h| - 1), KeptAt(s.h, s.kept, |s.h|)) == EdgesAt(s.h, |s.h|)
  }

  /** Repairing the floor at the current sequence is dangerous: a generation one
      commit behind is published, or a builder can still publish it, and the log
      does not account for that commit. */
  ghost predicate Hazard(s: State) {
    |s.h| > 0 && !Excluded(s, |s.h|) && !LastAccounted(s)
  }

  lemma AppliedNothing(edges: set<Edge>)
    ensures Applied(edges, map[]) == edges
  {
  }

  /** What the collector can look up decides the same as the proof's own state. */
  lemma HazardIs(s: State)
    requires Inv(s)
    ensures Hazard(s) <==> !RepairSafe(s)
  {
    var n := |s.h|;
    if n > 0 {
      if n == s.since {
        assert KeptAt(s.h, s.kept, n) == map[];
        AppliedNothing(EdgesAt(s.h, n - 1));
      } else if !Excluded(s, n) {
        assert Max(Floor(s.published), s.since) < n;
        assert KeptAt(s.h, s.kept, n) == s.h[n - 1];
      }
    }
  }

  /** A generation one commit behind, an unaccounted commit and a floor that
      claims it: the next incremental build publishes a wrong generation. */
  lemma NextBuildIsWrong(s: State, b: nat)
    requires b < |s.builders| && s.builders[b].Idle? && s.published.Some? && Exact(s.h, s.published.value)
    requires |s.h| >= 2 && s.h[|s.h| - 1] == map[] && s.published.value.base + 2 == |s.h| && s.low == Some(|s.h| - 1)
    requires Applied(EdgesAt(s.h, |s.h| - 2), KeptAt(s.h, s.kept, |s.h| - 1)) != EdgesAt(s.h, |s.h| - 1)
    ensures !AlwaysExact(s)
  {
    var n, g := |s.h| - 1, s.published.value;
    var s1 := Apply(s, Pin(b));
    var s2 := Apply(s1, ReadManifest(b));
    var s3 := Apply(s2, FinishIncremental(b, false));
    var snap := Snapshot(n + 1, s.kept, s.low, s.since);
    assert s2.builders[b] == Ready(snap, Some(g));
    assert KeptAt(s.h, s.kept, n + 1) == map[];
    assert Resolved(s.h, s.kept, n - 1, n - 1) == map[];
    assert Resolved(s.h, s.kept, n - 1, n) == map[] + KeptAt(s.h, s.kept, n);
    assert Resolved(s.h, s.kept, n - 1, n + 1) == KeptAt(s.h, s.kept, n);
    AppliedNothing(EdgesAt(s.h, n));
    assert EdgesAt(s.h, n + 1) == EdgesAt(s.h, n);
    assert s3.published == Some(Generation(n + 1, Applied(g.edges, KeptAt(s.h, s.kept, n)))) && s3.h == s.h;
    RunThree(s, Pin(b), ReadManifest(b), FinishIncremental(b, false));
  }

  lemma RunThree(s: State, a: Step, b: Step, c: Step)
    requires Enabled(s, a) && Enabled(Apply(s, a), b) && Enabled(Apply(Apply(s, a), b), c)
    ensures ValidRun(s, [a, b, c]) && Run(s, [a, b, c]) == Apply(Apply(Apply(s, a), b), c)
  {
    hide Enabled, Apply;
    var s1 := Apply(s, a);
    var s2 := Apply(s1, b);
    var s3 := Apply(s2, c);
    assert ValidRun(s3, []) && Run(s3, []) == s3;
    assert [c][1..] == [];
    assert ValidRun(s2, [c]) && Run(s2, [c]) == s3;
    assert [b, c][1..] == [c];
    assert ValidRun(s1, [b, c]) && Run(s1, [b, c]) == s3;
    assert [a, b, c][1..] == [b, c];
  }

  /** Exactness of all runs passes to every successor. */
  lemma StepsStayExact(s: State, step: Step)
    requires AlwaysExact(s) && Enabled(s, step)
    ensures AlwaysExact(Apply(s, step))
  {
    hide Enabled, Apply, Exact;
    var t := Apply(s, step);
    forall steps | ValidRun(t, steps) && Run(t, steps).published.Some?
      ensures Exact(Run(t, steps).h, Run(t, steps).published.value)
    {
      var more := [step] + steps;
      assert more[1..] == steps;
      assert ValidRun(s, more) && Run(s, more) == Run(t, steps);
    }
  }

  /** The last commit once the repair has added its own. */
  lemma AfterRepair(s: State)
    requires |s.h| > 0 && Enabled(s, Repair) && !LastAccounted(s)
    ensures var t := Apply(s, Repair); var n := |s.h|;
            && |t.h| == n + 1 && t.h[n] == map[] && t.low == Some(n)
            && Applied(EdgesAt(t.h, n - 1), KeptAt(t.h, t.kept, n)) != EdgesAt(t.h, n)
  {
    var n := |s.h|;
    EdgesAtGrows(s.h, map[], n);
    EdgesAtGrows(s.h, map[], n - 1);
    assert KeptAt(s.h + [map[]], s.kept, n) == KeptAt(s.h, s.kept, n);
  }

  lemma HazardBreaks(s: State)
    requires Inv(s) && Enabled(s, Repair) && |s.builders| > 0 && Hazard(s)
    ensures !AlwaysExact(Apply(s, Repair))
  {
    hide AlwaysExact, EdgesAt, Applied, KeptAt, ViewOk, FloorOk, BuildersOk;
    var n, t := |s.h|, Apply(s, Repair);
    AfterRepair(s);
    HistoryGrows(s, t, map[]);
    if AlwaysExact(t) {
      if s.published.value.base + 1 == n {
        StepsStayExact(t, Abandon(0));
        NextBuildIsWrong(Apply(t, Abandon(0)), 0);
      } else {
        var b :| 0 <= b < |s.builders| && !s.builders[b].Idle? && s.builders[b].snap.base + 1 == n
            && s.published.value.base < n;
        StepsStayExact(t, FinishFull(b, false));
        LateBuilderPublishes(t, b, n);
        NextBuildIsWrong(Apply(t, FinishFull(b, false)), b);
      }
    }
  }

  lemma LateBuilderPublishes(t: State, b: nat, n: nat)
    requires b < |t.builders| && !t.builders[b].Idle? && t.builders[b].snap.base + 1 == n <= |t.h|
    requires t.published.Some? && t.published.value.base + 1 < n
    ensures Enabled(t, FinishFull(b, false))
    ensures var u := Apply(t, FinishFull(b, false));
            && u.published == Some(Generation(n - 1, EdgesAt(t.h, n - 1))) && u.builders[b].Idle?
            && u.h == t.h && u.kept == t.kept && u.low == t.low && |u.builders| == |t.builders|
  {
  }

  /** Repairing the floor keeps every later publication exact if and only if there
      is no hazard: no generation one commit behind is published or still in the
      making, or the kept entries account for that commit. */
  lemma RepairExactly(s: State)
    requires Inv(s) && Enabled(s, Repair) && |s.builders| > 0
    ensures AlwaysExact(Apply(s, Repair)) <==> !Hazard(s)
  {
    HazardIs(s);
    if Hazard(s) {
      HazardBreaks(s);
    } else {
      StepKeeps(s, Repair);
      SafeIsExact(Apply(s, Repair));
    }
  }

  lemma InitHolds(s: State)
    requires Init(s)
    ensures Inv(s)
  {
  }

  /** From first enablement on an existing store, however commits, builders,
      failures, collections, repairs and purges interleave, every published
      generation is the one a full rebuild at its base gives, if and only if the
      generation found is not exactly one effective commit behind. */
  lemma EnablementExactly(s: State)
    requires Init(s) && |s.builders| > 0
    ensures AlwaysExact(s) <==> !Hazard(s)
    ensures Hazard(s) <==>
              && s.published.Some? && s.published.value.base + 1 == |s.h|
              && s.published.value.edges != EdgesAt(s.h, |s.h|)
  {
    InitHolds(s);
    HazardIs(s);
    if |s.h| > 0 {
      assert KeptAt(s.h, s.kept, |s.h|) == map[];
      AppliedNothing(EdgesAt(s.h, |s.h| - 1));
    }
    if Hazard(s) {
      HazardBreaks(s);
      if AlwaysExact(s) { StepsStayExact(s, Repair); }
    } else {
      SafeIsExact(s);
    }
  }

  /** Over every run, in the form a single run needs. */
  lemma PublishedIsExact(s: State, steps: seq<Step>)
    requires Init(s) && !Hazard(s) && ValidRun(s, steps)
    ensures var t := Run(s, steps); t.published.Some? ==> Exact(t.h, t.published.value)
  {
    InitHolds(s);
    HazardIs(s);
    RunKeeps(s, steps);
  }

  /** The failing input: one edge committed before logging began, and a published
      generation that does not have it yet. */
  lemma EarlyRepairBreaks(e: Edge)
    ensures var s := State([map[e := true]], 1, {}, None, Some(Generation(0, {})), [Idle]);
            Init(s) && Hazard(s) && Enabled(s, Repair) && !AlwaysExact(Apply(s, Repair))
  {
    var s := State([map[e := true]], 1, {}, None, Some(Generation(0, {})), [Idle]);
    assert EdgesAt(s.h, 0) == {};
    assert e in EdgesAt(s.h, 1);
    InitHolds(s);
    EnablementExactly(s);
    RepairExactly(s);
  }

  // Once covered, always covered.

  ghost predicate Bootstrapped(s: State) {
    && s.low.Some? && s.published.Some? && s.low.value <= s.published.value.base + 1
    && forall b :: 0 <= b < |s.builders| ==>
         && (s.builders[b].Pinned? ==>
             s.builders[b].snap.low.Some? && s.builders[b].snap.low.value <= Floor(s.published) + 1)
         && (s.builders[b].Ready? ==>
             s.builders[b].previous.Some? && Covered(s.builders[b].snap, s.builders[b].previous.value))
  }

  lemma StaysBootstrapped(s: State, step: Step)
    requires Bootstrapped(s) && Enabled(s, step) && !step.Purge?
    ensures Bootstrapped(Apply(s, step))
  {
    hide EdgesAt, IncrementalOf, EntriesOf;
    var t := Apply(s, step);
    assert Floor(t.published) >= Floor(s.published);
  }

  /** Without a purge, an incremental build never has to fall back again: the
      coverage test of every build succeeds. */
  lemma {:induction false} NeverFallsBack(s: State, steps: seq<Step>, b: nat)
    requires Bootstrapped(s) && ValidRun(s, steps) && forall i :: 0 <= i < |steps| ==> !steps[i].Purge?
    requires var t := Run(s, steps); b < |t.builders| && t.builders[b].Ready?
    ensures var x := Run(s, steps).builders[b];
            x.previous.Some? && Covered(x.snap, x.previous.value)
    decreases |steps|
  {
    hide Enabled, Apply, Covered;
    if steps != [] {
      StaysBootstrapped(s, steps[0]);
      NeverFallsBack(Apply(s, steps[0]), steps[1..], b);
    }
  }

  // How that comes about: the floor, then one full build.

  /** The floor is not past what is published, nor past `n`. */
  ghost predicate FloorUpto(s: State, n: nat) {
    s.low.Some? && s.low.value <= Max(n, Floor(s.published)) + 1
  }

  /** A floor never lies past the sequence, nor does a published base. */
  ghost predicate FloorInRange(s: State) {
    (s.low.Some? ==> s.low.value <= |s.h|) && Floor(s.published) <= |s.h|
    && forall b :: 0 <= b < |s.builders| && !s.builders[b].Idle? ==> s.builders[b].snap.base <= |s.h|
  }

  lemma FloorStaysInRange(s: State, step: Step)
    requires FloorInRange(s) && Enabled(s, step)
    ensures FloorInRange(Apply(s, step))
  {
    hide EdgesAt, Applied, Resolved, EntriesOf;
  }

  lemma {:induction false} FloorAlwaysInRange(s: State, steps: seq<Step>)
    requires FloorInRange(s) && ValidRun(s, steps)
    ensures FloorInRange(Run(s, steps))
    decreases |steps|
  {
    hide Enabled, Apply, FloorInRange;
    if steps != [] {
      FloorStaysInRange(s, steps[0]);
      FloorAlwaysInRange(Apply(s, steps[0]), steps[1..]);
    }
  }

  lemma FloorStaysUpto(s: State, step: Step, n: nat)
    requires FloorUpto(s, n) && Enabled(s, step) && !step.Purge?
    ensures FloorUpto(Apply(s, step), n) && (s.published.Some? ==> Apply(s, step).published.Some?)
  {
    hide EdgesAt, IncrementalOf, EntriesOf;
  }

  ghost predicate NoPurge(steps: seq<Step>) { forall i :: 0 <= i < |steps| ==> !steps[i].Purge? }

  lemma {:induction false} FloorRunUpto(s: State, steps: seq<Step>, n: nat)
    requires FloorUpto(s, n) && ValidRun(s, steps) && NoPurge(steps)
    ensures FloorUpto(Run(s, steps), n) && (s.published.Some? ==> Run(s, steps).published.Some?)
    decreases |steps|
  {
    hide Enabled, Apply, FloorUpto;
    if steps != [] {
      FloorStaysUpto(s, steps[0], n);
      FloorRunUpto(Apply(s, steps[0]), steps[1..], n);
    }
  }

  /** What build `b` pinned and read passes the coverage test, and will. */
  ghost predicate WillCover(s: State, b: nat) {
    && s.published.Some? && FloorUpto(s, 0) && b < |s.builders|
    && (s.builders[b].Pinned? ==>
          s.builders[b].snap.low.Some? && s.builders[b].snap.low.value <= Floor(s.published) + 1)
    && (s.builders[b].Ready? ==>
          s.builders[b].previous.Some? && Covered(s.builders[b].snap, s.builders[b].previous.value))
  }

  lemma StaysCovered(s: State, step: Step, b: nat)
    requires WillCover(s, b) && Enabled(s, step) && !step.Purge?
    ensures WillCover(Apply(s, step), b)
  {
    FloorStaysUpto(s, step, 0);
    hide EdgesAt, IncrementalOf, EntriesOf, FloorUpto;
    assert Floor(Apply(s, step).published) >= Floor(s.published);
    assert FloorUpto(s, 0) ==> s.low.Some? && s.low.value <= Floor(s.published) + 1 by { FloorUptoMeans(s); }
  }

  lemma FloorUptoMeans(s: State)
    ensures FloorUpto(s, 0) <==> s.low.Some? && s.low.value <= Floor(s.published) + 1
  {
  }

  lemma {:induction false} CoversToTheEnd(s: State, steps: seq<Step>, b: nat)
    requires WillCover(s, b) && ValidRun(s, steps) && NoPurge(steps)
    ensures WillCover(Run(s, steps), b)
    decreases |steps|
  {
    hide Enabled, Apply, WillCover;
    if steps != [] {
      StaysCovered(s, steps[0], b);
      CoversToTheEnd(Apply(s, steps[0]), steps[1..], b);
    }
  }

  /** One bootstrap is enough. In any run: a floor exists, build `f` pins its view,
      others go on, and `f` finishes in full. From then on, until a purge, every
      build that pins passes the coverage test, whatever older builds still do. */
  lemma OneBootstrapSuffices(init: State, before: seq<Step>, f: nat, during: seq<Step>, replace: bool,
                             later: seq<Step>, b: nat, rest: seq<Step>)
    requires Init(init) && ValidRun(init, before) && NoPurge(during) && NoPurge(later) && NoPurge(rest)
    requires var s := Run(init, before);
             && s.low.Some? && Enabled(s, Pin(f)) && ValidRun(Apply(s, Pin(f)), during)
             && var u := Run(Apply(s, Pin(f)), during);
             && Enabled(u, FinishFull(f, replace)) && u.builders[f].snap == View(s)
             && ValidRun(Apply(u, FinishFull(f, replace)), later)
             && var v := Run(Apply(u, FinishFull(f, replace)), later);
             && Enabled(v, Pin(b)) && ValidRun(Apply(v, Pin(b)), rest)
    ensures var s := Run(init, before);
            var u := Run(Apply(s, Pin(f)), during);
            var v := Run(Apply(u, FinishFull(f, replace)), later);
            var x := Run(Apply(v, Pin(b)), rest).builders;
            b < |x| && (x[b].Ready? ==> x[b].previous.Some? && Covered(x[b].snap, x[b].previous.value))
  {
    var s := Run(init, before);
    var u := Run(Apply(s, Pin(f)), during);
    var u' := Apply(u, FinishFull(f, replace));
    var v := Run(u', later);
    hide Run, ValidRun, Covered, EdgesAt, NoPurge, Excluded, FloorOk;
    assert FloorInRange(init);
    FloorAlwaysInRange(init, before);
    FloorRunUpto(Apply(s, Pin(f)), during, |s.h|);
    assert Floor(u'.published) >= |s.h| && u'.published.Some?;
    assert FloorUpto(u', 0);
    FloorRunUpto(u', later, 0);
    CoversToTheEnd(Apply(v, Pin(b)), rest, b);
  }

  /** Where the floor comes from: the first commit that logs anything, unless the
      writer believes it to be there already. It then stays until a purge. */
  lemma LoggingSetsFloor(s: State, changes: Changes, rest: seq<Step>)
    requires changes != map[] && ValidRun(Apply(s, Commit(changes, false)), rest) && NoPurge(rest)
    ensures Run(Apply(s, Commit(changes, false)), rest).low.Some?
  {
    FloorRemains(Apply(s, Commit(changes, false)), rest);
  }

  lemma {:induction false} FloorRemains(s: State, steps: seq<Step>)
    requires s.low.Some? && ValidRun(s, steps) && NoPurge(steps)
    ensures Run(s, steps).low.Some?
    decreases |steps|
  {
    if steps != [] {
      hide EdgesAt, IncrementalOf, EntriesOf;
      FloorRemains(Apply(s, steps[0]), steps[1..]);
    }
  }

  /** A collection that is not cut short leaves no entry from the floor up to its
      bound and touches no other, so the floor then starts the entries kept. */
  lemma CollectionFrees(s: State, through: nat, gone: set<LogEntry>, last: nat)
    requires Enabled(s, Collect(through, gone, false, last)) && forall x :: x in s.kept ==> s.low.value <= x.0
    ensures var t := Apply(s, Collect(through, gone, false, last));
            && t.kept == (set x | x in s.kept && x.0 > through)
            && t.low.Some? && (forall x :: x in t.kept ==> t.low.value <= x.0) && t.low.value == through + 1
  {
    hide EdgesAt;
  }
}
