/** When a published artifact is exactly what the graph held at its epoch. */
module BuildExactness {
  import opened Basics
  import opened Binary
  import opened WriteBatch
  import opened Rows
  import opened CscImage
  import opened CscArtifact
  import opened ArtifactLoad
  import opened ArtifactPipeline
  import opened ArtifactProtocol
  import opened ArtifactSafety
  import opened ArtifactCompleteness
  import opened PublishedArtifact
  import opened LiveTopology
  import opened BuildProtocol
  import opened BuildSafety

  // From records to edges.

  lemma PlanForParts(at: ArtifactId, r: Read)
    requires ValidId(at) && r.Have? && |r.edges| <= MAX_VEC
    ensures PlanFor(at, r).records == PlanOf(at, ImageOf(r.edges), []).records
    ensures PlanFor(at, r).csc == EncodeManifest(ManifestOf(at, ImageOf(r.edges)))
  {
    hide ImageOf, PlanOf;
    PlanParts(at, ImageOf(r.edges), r.manifest);
  }

  /** Stored records under a stored manifest read back as the edges. */
  lemma RecordsReadBack(store: Store, at: ArtifactId, edges: set<Edge>)
    requires ValidId(at) && |edges| <= MAX_VEC && Stored(store, PlanOf(at, ImageOf(edges), []).records)
    requires CscKey(at) in store && store[CscKey(at)] == EncodeManifest(ManifestOf(at, ImageOf(edges)))
    ensures ReadsEdges(store, at, edges)
  {
    hide PlanOf, Stored, CscKey, EncodeManifest, ManifestOf, FitsMachine, WellFormed, DecodedUpto, AdjacencyOf, ValidId;
    hide ReadArtifact, HoldsArtifact, ImageOf;
    StoredHolds(store, at, ImageOf(edges));
    StoredReads(store, at, ImageOf(edges));
  }

  lemma StoredIsExact(w: Builds, s: System, b: nat)
    requires ValidBuilds(w) && CoreOk(w, s) && s.core.publisher == Some(b) && b in w.builders
    requires b in s.progress && s.progress[b].Have? && s.progress[b].edges == s.atEpoch && |s.atEpoch| <= MAX_VEC
    requires b in Actors(w, s.progress).plans && Stored(s.core.store, Actors(w, s.progress).plans[b].records)
    ensures Exact(w, s)
  {
    hide PlanFor, Stored, CscKey, ManifestKey, MarkerKey, ReadsEdges, ImageOf, PlanOf, EncodeManifest, ManifestOf;
    ActorsParts(w, s.progress);
    hide Actors;
    PlanForParts(w.at, s.progress[b]);
    RecordsReadBack(s.core.store, w.at, s.atEpoch);
  }

  // At the moment of publication.

  lemma PublishTakesEffect(w: Builds, s: System, ev: Event)
    requires ValidId(w.at) && Ready(w, s, ev) && Publishes(w, s, ev)
    ensures After(w, s, ev).core.publisher == Some(ev.step.actor) && CoreStep(w, s, ev.step) == ev.step
    ensures ev.step.actor in Actors(w, s.progress).plans
    ensures After(w, s, ev).sequence == s.sequence + 1
    ensures After(w, s, ev).core.phase == s.core.phase[ev.step.actor := Finished]
  {
    hide PlanFor;
    ActorsParts(w, s.progress);
    hide Actors, ManifestKey, MarkerKey, CscKey, WriteManifest;
  }

  /** What takes effect was read as of the epoch: a streamed build has passed the
      generation check, and a snapshot was taken before the topology moved on. */
  lemma PublicationExact(w: Builds, s: System, ev: Event)
    requires ValidBuilds(w) && OneGuard(w) && NoLaterIndex(w) && Base(w, s) && Ready(w, s, ev) && Publishes(w, s, ev)
    ensures Exact(w, After(w, s, ev))
    ensures FromEpoch(After(w, s, ev))
  {
    assert ValidId(w.at);
    var b := ev.step.actor;
    BaseStep(w, s, ev);
    PublishTakesEffect(w, s, ev);
    ProtocolStep(w, s, ev.step);
    ActorsParts(w, s.progress);
    ActorsValid(w, s.progress);
    assert ReadOk(w, s, s.progress[b]);
    hide Actors, Exec, Enabled, After, Ready, ManifestKey, MarkerKey, Inv, WritesKept, Exact, Stored, ValidWorld;
    PublishCompletes(Actors(w, s.progress), s.core, ev.step);
    StoredIsExact(w, After(w, s, ev), b);
  }

  /** The publisher had read the epoch's edges. */
  ghost predicate FromEpoch(s: System) {
    s.core.publisher.Some? ==>
      && s.core.publisher.value in s.progress && s.progress[s.core.publisher.value].Have?
      && s.progress[s.core.publisher.value].edges == s.atEpoch
  }

  // Afterwards.

  /** Nobody puts records of other edges over a published artifact. */
  ghost predicate Harmless(s: System, ev: Event) {
    ev.Protocol? && ev.step.PutRecords? && s.core.publisher.Some? ==>
      ev.step.actor in s.progress && s.progress[ev.step.actor].Have? && s.progress[ev.step.actor].edges == s.atEpoch
  }

  ghost predicate Faithful(w: Builds, s: System)
    requires ValidId(w.at)
  {
    FromEpoch(s) && Complete(Actors(w, s.progress), s.core)
  }

  lemma FaithfulIsExact(w: Builds, s: System)
    requires ValidBuilds(w) && Base(w, s) && Faithful(w, s)
    ensures Exact(w, s)
  {
    if ManifestKey(w.at) in s.core.store {
      ActorsParts(w, s.progress);
      hide Actors, ManifestKey, MarkerKey, CscKey, Stored, TokensClaimed, GuardsOwned;
      var b := s.core.publisher.value;
      assert ReadOk(w, s, s.progress[b]);
      StoredIsExact(w, s, b);
    }
  }

  lemma SameEdgesFit(w: Builds, s: System, st: Step)
    requires ValidBuilds(w) && FromEpoch(s) && Harmless(s, Protocol(st)) && ReadsOk(w, s)
    requires s.progress.Keys == w.builders
    ensures PutsFit(Actors(w, s.progress), s.core, st)
  {
    hide PlanFor, Agree, ReadOk;
    ActorsParts(w, s.progress);
    hide Actors;
    if st.PutRecords? && st.actor in w.builders && s.core.publisher.Some? {
      var p, q := s.progress[s.core.publisher.value], s.progress[st.actor];
      HaveFits(w, s, p);
      PlanForParts(w.at, p);
      PlanForParts(w.at, q);
      PlanForValid(w.at, p);
      OwnRecordsAgree(w.at, PlanFor(w.at, p));
    }
  }

  lemma HaveFits(w: Builds, s: System, r: Read)
    requires ReadOk(w, s, r) && r.Have?
    ensures |r.edges| <= MAX_VEC
  {
  }

  lemma ProtocolFaithful(w: Builds, s: System, st: Step)
    requires ValidBuilds(w) && OneGuard(w) && NoLaterIndex(w) && Base(w, s) && Faithful(w, s)
    requires Ready(w, s, Protocol(st)) && Harmless(s, Protocol(st))
    ensures Faithful(w, After(w, s, Protocol(st)))
  {
    assert ValidId(w.at) && s.progress.Keys == w.builders && ReadsOk(w, s);
    assert FromEpoch(s) && Complete(Actors(w, s.progress), s.core);
    assert Inv(Actors(w, s.progress), s.core) && WritesKept(Actors(w, s.progress), s.core);
    var t := After(w, s, Protocol(st));
    if Publishes(w, s, Protocol(st)) { PublicationExact(w, s, Protocol(st)); }
    hide *;
    var a, cs := Actors(w, s.progress), CoreStep(w, s, st);
    ProtocolStep(w, s, st);
    ActorsValid(w, s.progress);
    CoreStepPuts(w, s, st);
    SameEdgesFit(w, s, cs);
    CompleteStep(a, s.core, cs);
    if !Publishes(w, s, Protocol(st)) { PublisherKept(w, s, st); }
    FaithfulIs(w, s, t);
  }

  lemma FaithfulIs(w: Builds, s: System, t: System)
    requires ValidId(w.at) && t.progress == s.progress && t.atEpoch == s.atEpoch
    requires Complete(Actors(w, s.progress), t.core)
    requires FromEpoch(t) || (FromEpoch(s) && t.core.publisher == s.core.publisher)
    ensures Faithful(w, t)
  {
    hide Complete, Actors;
  }

  lemma CoreStepPuts(w: Builds, s: System, st: Step)
    requires Harmless(s, Protocol(st))
    ensures Harmless(s, Protocol(CoreStep(w, s, st)))
  {
  }

  lemma PublisherKept(w: Builds, s: System, st: Step)
    requires ValidBuilds(w) && Ready(w, s, Protocol(st)) && !Publishes(w, s, Protocol(st))
    ensures After(w, s, Protocol(st)).core.publisher == s.core.publisher
  {
    ProtocolStep(w, s, st);
    ActorsParts(w, s.progress);
    ActorsValid(w, s.progress);
    hide Actors, After, Ready, Exec, Enabled, ManifestKey, MarkerKey, ValidWorld;
    var a, cs := Actors(w, s.progress), CoreStep(w, s, st);
    ManifestEffect(a, s.core, cs);
  }

  lemma OtherFaithful(w: Builds, s: System, ev: Event)
    requires ValidBuilds(w) && Base(w, s) && Faithful(w, s) && Ready(w, s, ev) && !ev.Protocol?
    ensures Faithful(w, After(w, s, ev))
  {
    assert ValidId(w.at) && s.progress.Keys == w.builders && FromEpoch(s) && Complete(Actors(w, s.progress), s.core);
    if s.core.publisher.Some? {
      assert ReadOk(w, s, s.progress[s.core.publisher.value]);
      EpochStays(w, s, ev);
    }
    hide *;
    OtherEvents(w, s, ev);
    KeepsComplete(w, s, After(w, s, ev), ev);
  }

  lemma KeepsComplete(w: Builds, s: System, t: System, ev: Event)
    requires ValidId(w.at) && s.progress.Keys == w.builders && FromEpoch(s) && Complete(Actors(w, s.progress), s.core)
    requires t.core == s.core && (s.core.publisher.Some? ==> t.atEpoch == s.atEpoch)
    requires !IsRead(ev) ==> t.progress == s.progress
    requires IsRead(ev) ==> ev.builder in s.progress && !s.progress[ev.builder].Have? && ev.builder in t.progress
    requires IsRead(ev) ==> t.progress == s.progress[ev.builder := t.progress[ev.builder]]
    ensures Faithful(w, t)
  {
    hide PlanFor, Stored;
    ActorsParts(w, s.progress);
    ActorsParts(w, t.progress);
    hide Actors;
  }

  /** Once some build has begun the epoch is past, and its edges are settled. */
  lemma EpochStays(w: Builds, s: System, ev: Event)
    requires ValidId(w.at) && Ready(w, s, ev) && w.at.epoch <= s.sequence
    ensures After(w, s, ev).atEpoch == s.atEpoch && w.at.epoch <= After(w, s, ev).sequence
  {
    hide Visible, Mutated, Compacted, Exec, Enabled, Actors, Submits, Scanned, BusyBeside, ManifestKey;
  }

  lemma FaithfulStep(w: Builds, s: System, ev: Event)
    requires ValidBuilds(w) && OneGuard(w) && NoLaterIndex(w) && Base(w, s) && Faithful(w, s)
    requires Ready(w, s, ev) && Harmless(s, ev)
    ensures Faithful(w, After(w, s, ev))
  {
    assert ValidId(w.at);
    hide *;
    if ev.Protocol? {
      ProtocolFaithful(w, s, ev.step);
    } else {
      OtherFaithful(w, s, ev);
    }
  }

  lemma NothingPublished(w: Builds, s: System)
    requires ValidId(w.at) && Init(w, s)
    ensures Faithful(w, s)
  {
  }

  /** A history in which no build puts records of other edges over a published
      artifact keeps it exact throughout. */
  lemma {:induction false} HarmlessHistory(w: Builds, states: seq<System>, events: seq<Event>, i: nat)
    requires ValidBuilds(w) && OneGuard(w) && NoLaterIndex(w) && IsHistory(w, states, events) && i <= |events|
    requires forall j :: 0 <= j < i ==> Harmless(states[j], events[j])
    ensures Faithful(w, states[i]) && Exact(w, states[i])
  {
    hide Ready, After, Init, OneGuard, NoLaterIndex, Base, Faithful, Exact, Harmless;
    HistoryBase(w, states, events, i);
    if i == 0 {
      NothingPublished(w, states[0]);
    } else {
      HarmlessHistory(w, states, events, i - 1);
      HistoryBase(w, states, events, i - 1);
      FaithfulStep(w, states[i - 1], events[i - 1]);
    }
    FaithfulIsExact(w, states[i]);
  }

  // One build at a time.

  ghost predicate Single(s: System) {
    forall b, d :: Busy(s, b) && Busy(s, d) ==> b == d
  }

  /** After a publication the sequence is past the epoch, and whoever is still
      building reads a snapshot. */
  ghost predicate Past(w: Builds, s: System) {
    s.core.publisher.Some? ==>
      && w.at.epoch < s.sequence
      && forall b :: Busy(s, b) ==> s.progress[b].Have? && !s.progress[b].streamed
  }

  lemma FinishedStays(a: World, s: State, st: Step, b: nat)
    requires Enabled(a, s, st) && b in s.phase && s.phase[b].Finished?
    ensures b in Exec(a, s, st).phase && Exec(a, s, st).phase[b].Finished?
  {
    hide ManifestKey, MarkerKey, CscKey, ApplyOps, Puts, DropMarker, WriteClaim, WriteManifest, WriteDeletes;
  }

  /** Only a build that gets a permit becomes busy. */
  lemma BusyAfter(w: Builds, s: System, ev: Event, b: nat)
    requires ValidBuilds(w) && Ready(w, s, ev) && Shape(w, s) && Busy(After(w, s, ev), b)
    ensures Busy(s, b) || ((ev.Start? || ev.Snapshot?) && ev.builder == b && Admitted(w, s, b))
  {
    assert ValidId(w.at);
    if ev.Protocol? {
      ProtocolStep(w, s, ev.step);
      hide After, Ready, Actors, Exec, Enabled;
      if b in s.core.phase && s.core.phase[b].Finished? {
        FinishedStays(Actors(w, s.progress), s.core, CoreStep(w, s, ev.step), b);
      }
      CorePhases(w, s, ev.step);
    } else {
      OtherEvents(w, s, ev);
      hide BusyBeside, Visible, Scanned, Actors, Mutated, Compacted;
    }
  }

  lemma CorePhases(w: Builds, s: System, st: Step)
    requires ValidId(w.at) && Ready(w, s, Protocol(st))
    ensures After(w, s, Protocol(st)).core.phase.Keys == s.core.phase.Keys
  {
    ProtocolStep(w, s, st);
    hide After, Ready, Actors, Exec, Enabled;
    PhaseEffect(Actors(w, s.progress), s.core, CoreStep(w, s, st));
  }

  /** With one permit, whoever is admitted is alone. */
  lemma AdmittedAlone(w: Builds, s: System, b: nat)
    requires ValidBuilds(w) && OneBuild(w) && Shape(w, s) && Admitted(w, s, b)
    ensures forall d :: !Busy(s, d)
  {
    var beside := BusyBeside(w, s, b);
    forall d ensures !Busy(s, d) {
      if d in w.builders && d != b {
        assert w.proc[d] == w.proc[b] && beside == {};
        assert d !in beside;
      }
    }
  }

  lemma SingleStep(w: Builds, s: System, ev: Event)
    requires ValidBuilds(w) && OneBuild(w) && Ready(w, s, ev) && Shape(w, s) && Single(s)
    ensures Single(After(w, s, ev))
  {
    assert ValidId(w.at);
    hide After, Ready, Busy, Admitted, Shape, OneBuild, ValidBuilds;
    forall b, d | Busy(After(w, s, ev), b) && Busy(After(w, s, ev), d) ensures b == d {
      BusyAfter(w, s, ev, b);
      BusyAfter(w, s, ev, d);
      if !Busy(s, b) { AdmittedAlone(w, s, b); }
      if !Busy(s, d) { AdmittedAlone(w, s, d); }
    }
  }

  /** The builder that puts or publishes is busy. */
  lemma WriterBusy(w: Builds, s: System, st: Step)
    requires ValidBuilds(w) && Ready(w, s, Protocol(st)) && Shape(w, s) && (st.PutRecords? || st.Publish?)
    ensures Busy(s, st.actor) && st.actor in s.progress && s.progress[st.actor].Have?
  {
    hide PlanFor;
    ActorsParts(w, s.progress);
    hide Actors;
  }

  lemma PublicationPast(w: Builds, s: System, ev: Event)
    requires ValidBuilds(w) && Base(w, s) && Single(s) && Ready(w, s, ev) && Publishes(w, s, ev)
    ensures Past(w, After(w, s, ev))
  {
    assert ValidId(w.at) && Shape(w, s) && ReadsOk(w, s) && ev.Protocol? && ev.step.Publish?;
    hide *;
    WriterBusy(w, s, ev.step);
    PublishTakesEffect(w, s, ev);
    ProtocolStep(w, s, ev.step);
    LastOneEnds(w, s, After(w, s, ev), ev.step.actor);
  }

  lemma LastOneEnds(w: Builds, s: System, t: System, b: nat)
    requires Single(s) && ReadsOk(w, s) && Busy(s, b) && t.progress == s.progress && t.sequence == s.sequence + 1
    requires t.core.phase == s.core.phase[b := Finished]
    ensures Past(w, t)
  {
    hide Torn;
    assert ReadOk(w, s, s.progress[b]);
    forall d ensures !Busy(t, d) {
      assert d != b && Busy(t, d) ==> Busy(s, d);
    }
  }

  /** A read after the publication is of a snapshot, since the sequence has moved
      past the epoch. */
  lemma ReadPast(w: Builds, s: System, ev: Event, b: nat)
    requires ValidBuilds(w) && Ready(w, s, ev) && Shape(w, s) && Past(w, s) && s.core.publisher.Some?
    requires Busy(After(w, s, ev), b)
    ensures b in After(w, s, ev).progress
    ensures After(w, s, ev).progress[b].Have? && !After(w, s, ev).progress[b].streamed
  {
    assert ValidId(w.at);
    BusyAfter(w, s, ev, b);
    if ev.Protocol? {
      ProtocolStep(w, s, ev.step);
      hide After, Ready;
    } else {
      OtherEvents(w, s, ev);
      hide BusyBeside, Visible, Scanned, Actors, Mutated, Compacted, Enabled, Exec;
      assert ev.ScanSingles? || ev.ScanTombstones? || ev.ScanSegments? ==> Busy(s, ev.builder);
    }
  }

  lemma PastStep(w: Builds, s: System, ev: Event)
    requires ValidBuilds(w) && Base(w, s) && Single(s) && Ready(w, s, ev) && Past(w, s)
    ensures Past(w, After(w, s, ev))
  {
    assert ValidId(w.at) && Shape(w, s);
    hide *;
    if Publishes(w, s, ev) {
      PublicationPast(w, s, ev);
    } else {
      if ev.Protocol? { PublisherKept(w, s, ev.step); } else { OtherEvents(w, s, ev); }
      StaysPast(w, s, ev);
    }
  }

  lemma StaysPast(w: Builds, s: System, ev: Event)
    requires ValidBuilds(w) && Shape(w, s) && Ready(w, s, ev) && Past(w, s)
    requires After(w, s, ev).core.publisher == s.core.publisher
    ensures Past(w, After(w, s, ev))
  {
    assert ValidId(w.at);
    hide After, Ready, Busy, ValidBuilds, Shape;
    var t := After(w, s, ev);
    if s.core.publisher.Some? {
      SequenceGrows(w, s, ev);
      forall b | Busy(t, b) ensures t.progress[b].Have? && !t.progress[b].streamed {
        ReadPast(w, s, ev, b);
      }
    }
  }

  lemma SequenceGrows(w: Builds, s: System, ev: Event)
    requires ValidId(w.at) && Ready(w, s, ev)
    ensures s.sequence <= After(w, s, ev).sequence
  {
    hide Visible, Mutated, Compacted, Exec, Enabled, Actors, Submits, Scanned, BusyBeside, ManifestKey;
  }

  lemma PastIsHarmless(w: Builds, s: System, ev: Event)
    requires ValidBuilds(w) && Base(w, s) && Ready(w, s, ev) && Past(w, s)
    ensures Harmless(s, ev)
  {
    if ev.Protocol? && ev.step.PutRecords? && s.core.publisher.Some? {
      WriterBusy(w, s, ev.step);
      hide Ready, CoreOk, TopologyOk;
      assert ReadOk(w, s, s.progress[ev.step.actor]);
    }
  }

  lemma NobodyBusy(w: Builds, s: System)
    requires ValidId(w.at) && Init(w, s)
    ensures Single(s) && Past(w, s)
  {
  }

  lemma {:induction false} HistoryAlone(w: Builds, states: seq<System>, events: seq<Event>, i: nat)
    requires ValidBuilds(w) && OneGuard(w) && NoLaterIndex(w) && OneBuild(w)
    requires IsHistory(w, states, events) && i <= |events|
    ensures Single(states[i]) && Past(w, states[i])
    ensures forall j :: 0 <= j < i ==> Harmless(states[j], events[j])
  {
    hide Ready, After, Init, OneGuard, NoLaterIndex, OneBuild, Single, Past, Harmless;
    if i == 0 {
      NobodyBusy(w, states[0]);
    } else {
      HistoryAlone(w, states, events, i - 1);
      HistoryBase(w, states, events, i - 1);
      BaseShape(w, states[i - 1]);
      hide Base;
      SingleStep(w, states[i - 1], events[i - 1]);
      PastStep(w, states[i - 1], events[i - 1]);
      PastIsHarmless(w, states[i - 1], events[i - 1]);
    }
  }

  lemma BaseShape(w: Builds, s: System)
    requires ValidId(w.at) && Base(w, s)
    ensures Shape(w, s)
  {
  }
}
