/** What every history of builds, commits and compactions keeps, and when that
    makes published artifacts exact. */
module BuildSafety {
  import opened Basics
  import opened Binary
  import opened WriteBatch
  import opened Rows
  import opened CscImage
  import opened CscArtifact
  import opened ArtifactLoad
  import opened ArtifactPipeline
  import opened ArtifactProtocol
  import opened ArtifactSafety
  import opened ArtifactCompleteness
  import opened PublishedArtifact
  import opened LiveTopology
  import opened BuildProtocol

  // The conditions.

  /** No epoch after this one is indexed, so nothing is compacted past it. */
  predicate NoLaterIndex(w: Builds) {
    forall t :: t in w.indexed ==> t <= w.at.epoch
  }

  /** Builders share one artifact guard with each other and with all cleaners. */
  ghost predicate OneGuard(w: Builds) {
    forall b, a :: b in w.builders && b in w.proc && a in w.proc ==> w.proc[a] == w.proc[b]
  }

  ghost predicate CleanersGuarded(w: Builds) {
    forall b, c :: b in w.builders && b in w.proc && c in w.tokens && c in w.proc ==> w.proc[c] == w.proc[b]
  }

  /** No two builds of the epoch can be under way together. */
  ghost predicate OneBuild(w: Builds) {
    forall b, d :: b in w.builders && b in w.proc && d in w.builders && d in w.proc && b != d ==>
      w.proc[b] == w.proc[d] && w.permits <= 1
  }

  // The invariant.

  ghost predicate Shape(w: Builds, s: System) {
    s.progress.Keys == w.builders && s.core.phase.Keys == w.proc.Keys
  }

  ghost predicate TopologyOk(w: Builds, s: System) {
    && Stamped(s.live, s.sequence) && s.generation <= s.sequence
    && (s.generation <= w.at.epoch ==> Visible(s.live, w.at.epoch) == s.atEpoch)
  }

  /** As long as the topology has not moved past the epoch, what was scanned is
      what is there; a finished read is then the epoch's edges, and a snapshot's
      always is. */
  ghost predicate ReadOk(w: Builds, s: System, r: Read) {
    && (!r.NotStarted? ==> w.at.epoch <= s.sequence)
    && (r.SawSingles? && s.generation <= w.at.epoch ==> r.singles == s.live.singles)
    && (r.SawTombstones? && s.generation <= w.at.epoch ==> r.singles == s.live.singles && Torn(r.tombstones, s.live))
    && (r.Have? ==> |r.edges| <= MAX_VEC)
    && (r.Have? && (!r.streamed || s.generation <= w.at.epoch) ==> r.edges == s.atEpoch)
  }

  ghost predicate ReadsOk(w: Builds, s: System) {
    forall b :: b in s.progress ==> ReadOk(w, s, s.progress[b])
  }

  /** Builds in the protected region have read, and so has the publisher. */
  ghost predicate Settled(s: System) {
    && (forall b :: b in s.progress && b in s.core.phase && Holding(s.core.phase[b]) ==> s.progress[b].Have?)
    && (s.core.publisher.Some? ==> s.core.publisher.value in s.progress && s.progress[s.core.publisher.value].Have?)
  }

  ghost predicate CoreOk(w: Builds, s: System)
    requires ValidId(w.at)
  {
    Inv(Actors(w, s.progress), s.core) && WritesKept(Actors(w, s.progress), s.core)
  }

  ghost predicate Base(w: Builds, s: System)
    requires ValidId(w.at)
  {
    Shape(w, s) && TopologyOk(w, s) && ReadsOk(w, s) && Settled(s) && CoreOk(w, s)
  }

  // The actors of a system.

  lemma ActorsParts(w: Builds, progress: map<nat, Read>)
    requires ValidId(w.at)
    ensures var a := Actors(w, progress);
            && a.at == w.at && a.tokens == w.tokens && a.proc == w.proc && a.plans.Keys == w.builders
            && forall b :: b in w.builders && b in progress ==> a.plans[b] == PlanFor(w.at, progress[b])
  {
    hide PlanFor;
  }

  lemma PlanForValid(at: ArtifactId, r: Read)
    requires ValidId(at)
    ensures ValidPlan(at, PlanFor(at, r))
  {
    hide ValidPlan, PlanOf, DecodedUpto, AdjacencyOf, ImageOf;
    var edges := if r.Have? && |r.edges| <= MAX_VEC then r.edges else {};
    HasPointers(ImageOf(edges));
    RealPlanValid(at, ImageOf(edges), if r.Have? && |r.edges| <= MAX_VEC then r.manifest else []);
  }

  lemma HasPointers(c: Csc)
    requires WellFormed(c)
    ensures c.pointers != []
  {
  }

  lemma ActorsValid(w: Builds, progress: map<nat, Read>)
    requires ValidBuilds(w)
    ensures ValidWorld(Actors(w, progress))
    ensures CleanersGuarded(w) ==> GuardShared(Actors(w, progress))
  {
    hide ValidPlan, PlanFor;
    var a := Actors(w, progress);
    forall b | b in a.plans ensures ValidPlan(w.at, a.plans[b]) {
      PlanForValid(w.at, if b in progress then progress[b] else NotStarted);
    }
  }

  /** A build that is about to read has written nothing and published nothing. */
  lemma ActorsChange(w: Builds, s: System, b: nat, r: Read)
    requires ValidId(w.at) && CoreOk(w, s) && Shape(w, s) && Settled(s)
    requires b in s.progress && !s.progress[b].Have? && b in s.core.phase
    ensures CoreOk(w, s.(progress := s.progress[b := r])) && Shape(w, s.(progress := s.progress[b := r]))
  {
    hide PlanFor, Stored, ManifestKey, MarkerKey, CscKey;
    ActorsParts(w, s.progress);
    ActorsParts(w, s.progress[b := r]);
    hide Actors;
    var before, after := Actors(w, s.progress), Actors(w, s.progress[b := r]);
    assert forall d :: d in before.plans && d != b ==> before.plans[d] == after.plans[d];
    assert !Holding(s.core.phase[b]);
  }

  // One event at a time.

  lemma TopologyStep(w: Builds, s: System, ev: Event)
    requires ValidId(w.at) && NoLaterIndex(w) && Ready(w, s, ev) && TopologyOk(w, s)
    ensures TopologyOk(w, After(w, s, ev))
  {
    hide Stamped, Visible, Mutated, Compacted, Exec, Enabled, Actors, Submits, Scanned, BusyBeside, ManifestKey;
    match ev
    case Commit(m) =>
      var n := s.sequence + 1;
      StampedLater(s.live, s.sequence, n);
      MutatedStamped(s.live, m, n);
      if n <= w.at.epoch { StampedVisible(Mutated(s.live, m, n), n, w.at.epoch); }
    case Elsewhere(upto) => StampedLater(s.live, s.sequence, upto);
    case Compact(src, through) =>
      CompactedStamped(s.live, src, through, s.sequence);
      StampedLater(Compacted(s.live, src, through), s.sequence, s.sequence + 1);
      CompactedVisible(s.live, src, through, w.at.epoch);
    case Protocol(st) => StampedLater(s.live, s.sequence, s.sequence + 1);
    case _ =>
  }

  lemma StampedLater(t: Topology, n: nat, m: nat)
    requires Stamped(t, n) && n <= m
    ensures Stamped(t, m)
  {
  }

  /** Reads stay right while others act. */
  lemma ReadStays(w: Builds, s: System, ev: Event, r: Read)
    requires ValidId(w.at) && Ready(w, s, ev) && ReadOk(w, s, r)
    ensures ReadOk(w, After(w, s, ev), r)
  {
    hide Stamped, Visible, Mutated, Exec, Enabled, Actors, Submits, Scanned, BusyBeside, ManifestKey, Torn;
    match ev
    case Compact(src, through) =>
      if r.SawTombstones? && s.generation <= w.at.epoch { TornCompacted(r.tombstones, s.live, src, through); }
    case _ =>
  }

  /** And each scan gets what is there. */
  lemma OwnRead(w: Builds, s: System, ev: Event, b: nat)
    requires ValidId(w.at) && Ready(w, s, ev) && ReadsOk(w, s) && TopologyOk(w, s) && b in s.progress
    requires After(w, s, ev).progress[b] != s.progress[b]
    ensures ReadOk(w, After(w, s, ev), After(w, s, ev).progress[b])
  {
    hide Stamped, Mutated, Compacted, Exec, Enabled, Actors, Submits, BusyBeside, ManifestKey, SegmentEdges;
    assert ReadOk(w, s, s.progress[b]);
    if ev.ScanSegments? && s.generation <= w.at.epoch {
      TornVisible(s.progress[b].tombstones, s.live, w.at.epoch);
    }
  }

  lemma ReadsStep(w: Builds, s: System, ev: Event)
    requires ValidId(w.at) && Ready(w, s, ev) && ReadsOk(w, s) && TopologyOk(w, s)
    requires After(w, s, ev).progress.Keys == s.progress.Keys
    ensures ReadsOk(w, After(w, s, ev))
  {
    hide Ready, After, ReadOk, TopologyOk;
    forall b | b in s.progress ensures ReadOk(w, After(w, s, ev), After(w, s, ev).progress[b]) {
      if After(w, s, ev).progress[b] != s.progress[b] {
        OwnRead(w, s, ev, b);
      } else {
        ReadStays(w, s, ev, s.progress[b]);
      }
    }
  }

  /** The core steps of the protocol as the system takes them. */
  function CoreStep(w: Builds, s: System, st: Step): Step {
    if Refused(w, s, st) then Crash(st.actor) else st
  }

  lemma ProtocolStep(w: Builds, s: System, st: Step)
    requires ValidId(w.at) && Ready(w, s, Protocol(st))
    ensures Enabled(Actors(w, s.progress), s.core, CoreStep(w, s, st))
    ensures After(w, s, Protocol(st)).core == Exec(Actors(w, s.progress), s.core, CoreStep(w, s, st))
    ensures After(w, s, Protocol(st)).progress == s.progress && After(w, s, Protocol(st)).atEpoch == s.atEpoch
    ensures After(w, s, Protocol(st)).live == s.live && After(w, s, Protocol(st)).generation == s.generation
    ensures st.actor in w.builders && !CoreStep(w, s, st).Crash? ==>
              st.actor in s.progress && s.progress[st.actor].Have?
  {
    hide Exec, Actors, ManifestKey, Submits;
  }

  /** Two builders under one guard are never writing at once. */
  lemma WritersExclude(w: Builds, a: World, s: State, st: Step)
    requires OneGuard(w) && a.proc == w.proc && a.plans.Keys == w.builders && w.builders <= w.proc.Keys
    requires Enabled(a, s, st) && GuardsOwned(a, s)
    ensures PutsAgree(a, s, st)
  {
    hide Agree, IsData;
  }

  lemma ProtocolCore(w: Builds, s: System, st: Step)
    requires ValidBuilds(w) && OneGuard(w) && Ready(w, s, Protocol(st)) && CoreOk(w, s)
    ensures CoreOk(w, After(w, s, Protocol(st)))
  {
    assert w.builders <= w.proc.Keys && CleanersGuarded(w);
    hide Ready, After, Enabled, Exec, Actors, Inv, WritesKept, GuardShared, ValidWorld, ValidBuilds, OneGuard;
    hide PutsAgree, CoreStep, CleanersGuarded, GuardsOwned;
    var a := Actors(w, s.progress);
    ActorsValid(w, s.progress);
    ActorsParts(w, s.progress);
    ProtocolStep(w, s, st);
    InvStep(a, s.core, CoreStep(w, s, st));
    InvParts(a, s.core);
    WritersExclude(w, a, s.core, CoreStep(w, s, st));
    WritesStep(a, s.core, CoreStep(w, s, st));
  }

  predicate IsRead(ev: Event) {
    ev.Start? || ev.ScanSingles? || ev.ScanTombstones? || ev.ScanSegments? || ev.Snapshot?
  }

  /** Outside the protocol at most one build's read changes. */
  lemma OtherEvents(w: Builds, s: System, ev: Event)
    requires ValidId(w.at) && Ready(w, s, ev) && !ev.Protocol?
    ensures After(w, s, ev).core == s.core
    ensures !IsRead(ev) ==> After(w, s, ev).progress == s.progress
    ensures IsRead(ev) ==>
              && ev.builder in s.progress && !s.progress[ev.builder].Have? && ev.builder in s.core.phase
              && s.core.phase[ev.builder].Idle? && ev.builder in After(w, s, ev).progress
              && After(w, s, ev).progress == s.progress[ev.builder := After(w, s, ev).progress[ev.builder]]
  {
    hide Stamped, Visible, Mutated, Compacted, Exec, Enabled, Actors, Submits, BusyBeside, ManifestKey, SegmentEdges;
  }

  lemma HoldingAfter(w: Builds, s: System, st: Step)
    requires ValidBuilds(w) && Ready(w, s, Protocol(st)) && Shape(w, s) && Settled(s)
    ensures Settled(After(w, s, Protocol(st))) && Shape(w, After(w, s, Protocol(st)))
  {
    assert ValidId(w.at);
    hide *;
    var a, cs, t := Actors(w, s.progress), CoreStep(w, s, st), After(w, s, Protocol(st));
    ProtocolStep(w, s, st);
    ActorsParts(w, s.progress);
    ActorsValid(w, s.progress);
    PhaseEffect(a, s.core, cs);
    CoreStepActor(w, s, st);
    EnabledActor(a, s.core, cs);
    PublisherAfter(a, s.core, cs);
    if cs.Crash? { CrashEnds(a, s.core, cs); }
    SettledStep(w, s, t, st.actor, cs.Crash?);
  }

  lemma CoreStepActor(w: Builds, s: System, st: Step)
    ensures CoreStep(w, s, st).actor == st.actor
  {
  }

  lemma PublisherAfter(a: World, s: State, st: Step)
    requires ValidWorld(a) && Enabled(a, s, st)
    ensures Exec(a, s, st).publisher == s.publisher || (st.Publish? && Exec(a, s, st).publisher == Some(st.actor))
  {
    hide Exec, Enabled, ValidWorld, ManifestKey, MarkerKey;
    ManifestEffect(a, s, st);
  }

  lemma SettledStep(w: Builds, s: System, t: System, actor: nat, ended: bool)
    requires Settled(s) && Shape(w, s) && t.progress == s.progress && t.core.phase.Keys == s.core.phase.Keys
    requires forall b :: b in s.core.phase && b != actor ==> t.core.phase[b] == s.core.phase[b]
    requires actor in s.core.phase
    requires if ended then t.core.phase[actor] == Finished && t.core.publisher == s.core.publisher
             else actor in w.builders ==> s.progress[actor].Have?
    requires t.core.publisher == s.core.publisher || (actor in w.builders && t.core.publisher == Some(actor))
    ensures Settled(t) && Shape(w, t)
  {
  }

  lemma EnabledActor(a: World, s: State, st: Step)
    requires Enabled(a, s, st)
    ensures st.actor in s.phase && st.actor in a.proc && (st.Publish? ==> st.actor in a.plans)
  {
  }

  lemma CrashEnds(a: World, s: State, st: Step)
    requires Enabled(a, s, st) && st.Crash?
    ensures Exec(a, s, st).phase == s.phase[st.actor := Finished]
    ensures Exec(a, s, st).store == s.store && Exec(a, s, st).publisher == s.publisher
  {
  }

  lemma OthersSettle(w: Builds, s: System, ev: Event)
    requires ValidBuilds(w) && Ready(w, s, ev) && !ev.Protocol? && Shape(w, s) && Settled(s) && CoreOk(w, s)
    ensures Settled(After(w, s, ev)) && Shape(w, After(w, s, ev)) && CoreOk(w, After(w, s, ev))
  {
    assert ValidId(w.at);
    hide *;
    OtherEvents(w, s, ev);
    var t := After(w, s, ev);
    if IsRead(ev) {
      ReadSettles(w, s, t, ev.builder);
      ActorsChange(w, s, ev.builder, t.progress[ev.builder]);
      SameCore(w, s.(progress := t.progress), t);
    } else {
      SameSettled(w, s, t);
      SameCore(w, s, t);
    }
  }

  lemma ReadSettles(w: Builds, s: System, t: System, b: nat)
    requires Settled(s) && Shape(w, s) && t.core == s.core && b in s.progress && b in t.progress
    requires t.progress == s.progress[b := t.progress[b]] && !s.progress[b].Have?
    requires b in s.core.phase && s.core.phase[b].Idle?
    ensures Settled(t) && Shape(w, t)
  {
  }

  lemma SameSettled(w: Builds, s: System, t: System)
    requires Settled(s) && Shape(w, s) && t.core == s.core && t.progress == s.progress
    ensures Settled(t) && Shape(w, t)
  {
  }

  lemma SameCore(w: Builds, s: System, t: System)
    requires ValidId(w.at) && CoreOk(w, s) && s.core == t.core && s.progress == t.progress
    ensures CoreOk(w, t)
  {
  }

  lemma BaseStep(w: Builds, s: System, ev: Event)
    requires ValidBuilds(w) && OneGuard(w) && NoLaterIndex(w) && Ready(w, s, ev) && Base(w, s)
    ensures Base(w, After(w, s, ev))
  {
    hide Ready, After, TopologyOk, ReadsOk, Settled, CoreOk, OneGuard, NoLaterIndex;
    TopologyStep(w, s, ev);
    if ev.Protocol? {
      HoldingAfter(w, s, ev.step);
      ProtocolCore(w, s, ev.step);
    } else {
      OthersSettle(w, s, ev);
    }
    ReadsStep(w, s, ev);
  }

  lemma BaseInit(w: Builds, s: System)
    requires ValidBuilds(w) && Init(w, s)
    ensures Base(w, s)
  {
    hide Stamped, Visible, ManifestKey, MarkerKey, CscKey, PlanFor, ValidPlan;
    StampedVisible(s.live, s.sequence, w.at.epoch);
    ActorsParts(w, s.progress);
    ActorsValid(w, s.progress);
    InvFresh(Actors(w, s.progress), s.core);
  }

  lemma {:induction false} HistoryBase(w: Builds, states: seq<System>, events: seq<Event>, i: nat)
    requires ValidBuilds(w) && OneGuard(w) && NoLaterIndex(w) && IsHistory(w, states, events) && i <= |events|
    ensures Base(w, states[i])
  {
    hide Ready, After, Init, OneGuard, NoLaterIndex, Base;
    if i == 0 {
      BaseInit(w, states[0]);
    } else {
      HistoryBase(w, states, events, i - 1);
      BaseStep(w, states[i - 1], events[i - 1]);
    }
  }
}
