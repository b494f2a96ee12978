/** Histories that spoil a published artifact, and with them the exact conditions
    under which none does. */
module BuildFailures {
  import opened Basics
  import opened Ascending
  import opened Binary
  import opened WriteBatch
  import opened Rows
  import opened CscImage
  import opened Chunking
  import opened CscArtifact
  import opened ArtifactLoad
  import opened ArtifactPipeline
  import opened ArtifactProtocol
  import opened ArtifactSafety
  import opened ArtifactCompleteness
  import opened PublishedArtifact
  import opened LiveTopology
  import opened BuildProtocol
  import opened BuildSafety
  import opened BuildExactness

  // Playing events.

  ghost function Play(w: Builds, s: System, events: seq<Event>): Option<System>
    requires ValidId(w.at)
    decreases |events|
  {
    if events == [] then Some(s)
    else if Ready(w, s, events[0]) then Play(w, After(w, s, events[0]), events[1..])
    else None
  }

  ghost function SystemsOf(w: Builds, s: System, events: seq<Event>): (r: seq<System>)
    requires ValidId(w.at) && Play(w, s, events).Some?
    ensures |r| == |events| + 1 && r[0] == s && r[|events|] == Play(w, s, events).value
    ensures forall i :: 0 <= i < |events| ==> Ready(w, r[i], events[i]) && r[i + 1] == After(w, r[i], events[i])
    decreases |events|
  {
    hide Ready;
    hide After;
    if events == [] then [s]
    else [s] + SystemsOf(w, After(w, s, events[0]), events[1..])
  }

  lemma PlayIsHistory(w: Builds, s: System, events: seq<Event>)
    requires ValidId(w.at) && Init(w, s) && Play(w, s, events).Some?
    ensures IsHistory(w, SystemsOf(w, s, events), events)
    ensures AlwaysExact(w) ==> Exact(w, Play(w, s, events).value)
  {
    hide Ready, After, Init, Exact;
    var states := SystemsOf(w, s, events);
    assert IsHistory(w, states, events);
  }

  lemma {:induction false} PlayConcat(w: Builds, s: System, a: seq<Event>, b: seq<Event>)
    requires ValidId(w.at) && Play(w, s, a).Some?
    ensures Play(w, s, a + b) == Play(w, Play(w, s, a).value, b)
    decreases |a|
  {
    hide Ready, After;
    if a == [] {
      assert a + b == b;
    } else {
      PlayConcat(w, After(w, s, a[0]), a[1..], b);
      assert (a + b)[1..] == a[1..] + b;
    }
  }

  lemma PlayOne(w: Builds, s: System, ev: Event)
    requires ValidId(w.at) && Ready(w, s, ev)
    ensures Play(w, s, [ev]) == Some(After(w, s, ev))
  {
    hide Ready, After;
    assert [ev][1..] == [];
    assert Play(w, After(w, s, ev), []) == Some(After(w, s, ev));
  }

  lemma PlayThen(w: Builds, s: System, a: seq<Event>, ev: Event)
    requires ValidId(w.at) && Play(w, s, a).Some? && Ready(w, Play(w, s, a).value, ev)
    ensures Play(w, s, a + [ev]) == Some(After(w, Play(w, s, a).value, ev))
  {
    hide Ready, After, Play;
    PlayConcat(w, s, a, [ev]);
    PlayOne(w, Play(w, s, a).value, ev);
  }

  // Protocol steps, lifted.

  function Lifted(steps: seq<Step>): seq<Event> {
    seq(|steps|, i requires 0 <= i < |steps| => Protocol(steps[i]))
  }

  /** The step may be taken by whoever has read, and is not refused. */
  predicate Goes(w: Builds, s: System, st: Step) {
    st.actor in w.builders ==>
      && st.actor in s.progress && s.progress[st.actor].Have?
      && (st.Publish? && s.progress[st.actor].streamed ==> s.generation <= w.at.epoch)
  }

  ghost predicate AllGo(w: Builds, s: System, steps: seq<Step>) {
    forall i :: 0 <= i < |steps| ==> Goes(w, s, steps[i])
  }

  ghost predicate SameBeside(s: System, t: System) {
    t.progress == s.progress && t.live == s.live && t.generation == s.generation && t.atEpoch == s.atEpoch
    && s.sequence <= t.sequence
  }

  lemma LiftOne(w: Builds, s: System, st: Step)
    requires ValidId(w.at) && Goes(w, s, st) && Enabled(Actors(w, s.progress), s.core, st)
    ensures Ready(w, s, Protocol(st)) && After(w, s, Protocol(st)).core == Exec(Actors(w, s.progress), s.core, st)
    ensures SameBeside(s, After(w, s, Protocol(st)))
    ensures forall steps :: AllGo(w, s, steps) ==> AllGo(w, After(w, s, Protocol(st)), steps)
  {
    hide PlanFor;
    ActorsParts(w, s.progress);
    hide Actors, Exec, Submits, ManifestKey;
  }

  lemma {:induction false} Lift(w: Builds, s: System, steps: seq<Step>)
    requires ValidId(w.at) && Follow(Actors(w, s.progress), s.core, steps).Some?
    requires AllGo(w, s, steps)
    ensures Play(w, s, Lifted(steps)).Some? && SameBeside(s, Play(w, s, Lifted(steps)).value)
    ensures Play(w, s, Lifted(steps)).value.core == Follow(Actors(w, s.progress), s.core, steps).value
    decreases |steps|
  {
    hide Ready, After, Actors, Exec, Enabled;
    if steps != [] {
      LiftOne(w, s, steps[0]);
      var t := After(w, s, Protocol(steps[0]));
      assert forall i :: 0 <= i < |steps[1..]| ==> steps[1..][i] == steps[i + 1];
      Lift(w, t, steps[1..]);
      assert Lifted(steps)[1..] == Lifted(steps[1..]) && Lifted(steps)[0] == Protocol(steps[0]);
    }
  }

  // Where histories begin.

  ghost function Nobody(w: Builds): map<nat, Read> { map b | b in w.builders :: NotStarted }

  ghost function Begin(w: Builds, live: Topology, generation: nat): System
    requires ValidId(w.at)
  {
    System(EmptyState(Actors(w, Nobody(w))), w.at.epoch, generation, live, Visible(live, w.at.epoch), Nobody(w))
  }

  lemma BeginIsInit(w: Builds, live: Topology, generation: nat)
    requires ValidBuilds(w) && generation <= w.at.epoch && Stamped(live, w.at.epoch)
    ensures Init(w, Begin(w, live, generation))
  {
    hide PlanFor, Fresh, Stamped, Visible;
    ActorsValid(w, Nobody(w));
    EmptyIsFresh(Actors(w, Nobody(w)));
  }

  /** The empty state is the same whatever has been read. */
  lemma EmptyCore(w: Builds, progress: map<nat, Read>)
    requires ValidId(w.at)
    ensures EmptyState(Actors(w, progress)) == EmptyState(Actors(w, Nobody(w)))
    ensures EmptyState(Actors(w, progress)) == State(map[], map a | a in w.proc :: Idle, map[], None)
  {
    hide PlanFor;
    ActorsParts(w, progress);
    ActorsParts(w, Nobody(w));
  }

  // The image of no edges, and how it is spoiled.

  const NOTHING: Csc := Csc([], [0], [])

  lemma ImageOfNone()
    ensures ImageOf({}) == NOTHING
  {
    hide WellFormed, DecodedUpto, AdjacencyOf;
    var rows := RowsFor({});
    assert rows == map[];
    assert Endpoints(rows) == {};
    assert Elems(DictionaryOf(rows)) == {};
    if DictionaryOf(rows) != [] { HasElem(DictionaryOf(rows)); }
  }

  lemma HasElem<T>(s: seq<T>)
    requires s != []
    ensures Elems(s) != {}
  {
    assert s[0] in Elems(s);
  }

  lemma RecordOfNone(at: ArtifactId)
    requires ValidId(at)
    ensures PlanOf(at, NOTHING, []).records == [(ChunkKey(at, Pointers, 0), EncodeChunk(Pointers, 0, [0]))]
  {
    hide ChunkKey, EncodeChunk, EncodeManifest, ManifestOf;
    assert Chunks([0]) == [[0]];
  }

  /** With the manifest of the empty image, a missing or longer pointer chunk makes
      every read fail. */
  lemma SpoiledNone(store: Store, at: ArtifactId, values: seq<U64>)
    requires ValidId(at) && CscKey(at) in store && store[CscKey(at)] == EncodeManifest(ManifestOf(at, NOTHING))
    requires 2 <= |values| <= U64_MAX
    requires ChunkKey(at, Pointers, 0) in store ==> store[ChunkKey(at, Pointers, 0)] == EncodeChunk(Pointers, 0, values)
    ensures ReadArtifact(store, at).Err?
  {
    hide CscKey, ChunkKey, EncodeManifest, DecodeManifest, EncodeChunk, AsciiBytes, Validate, Loaded, LoadField;
    ManifestBytesRoundTrip(at, NOTHING);
    ManifestIsNotLegacy(ManifestOf(at, NOTHING));
    PointersFail(store, at, values);
  }

  lemma PointersFail(store: Store, at: ArtifactId, values: seq<U64>)
    requires 2 <= |values| <= U64_MAX
    requires ChunkKey(at, Pointers, 0) in store ==> store[ChunkKey(at, Pointers, 0)] == EncodeChunk(Pointers, 0, values)
    ensures LoadField(store, at, Pointers, 1, 1).Err?
  {
    hide ChunkKey, EncodeChunk, DecodeChunk;
    ChunkRoundTrip(Pointers, 0, values);
    assert Loaded(store, at, Pointers, 0) == Ok([]);
    assert [] + values == values;
  }

  lemma SpoiledIsNotExact(w: Builds, s: System, values: seq<U64>)
    requires ValidId(w.at) && CscKey(w.at) in s.core.store && ManifestKey(w.at) in s.core.store
    requires s.core.store[CscKey(w.at)] == EncodeManifest(ManifestOf(w.at, NOTHING)) && 2 <= |values| <= U64_MAX
    requires ChunkKey(w.at, Pointers, 0) in s.core.store ==>
               s.core.store[ChunkKey(w.at, Pointers, 0)] == EncodeChunk(Pointers, 0, values)
    ensures !Exact(w, s)
  {
    hide CscKey, ChunkKey, EncodeManifest, ManifestOf, EncodeChunk, ReadArtifact, ManifestKey, ValidId;
    SpoiledNone(s.core.store, w.at, values);
  }

  /** What a build of no edges writes. */
  lemma PlanOfNone(w: Builds, progress: map<nat, Read>, b: nat)
    requires ValidId(w.at) && b in w.builders && b in progress && progress[b].Have? && progress[b].edges == {}
    ensures b in Actors(w, progress).plans
    ensures Actors(w, progress).plans[b].records == [(ChunkKey(w.at, Pointers, 0), EncodeChunk(Pointers, 0, [0]))]
    ensures Actors(w, progress).plans[b].csc == EncodeManifest(ManifestOf(w.at, NOTHING))
  {
    hide PlanFor, PlanOf, ImageOf, ChunkKey, EncodeChunk, EncodeManifest, ManifestOf;
    ActorsParts(w, progress);
    PlanForParts(w.at, progress[b]);
    ImageOfNone();
    RecordOfNone(w.at);
  }

  /** Every other build puts a longer first pointer chunk. */
  lemma PlanOfSome(w: Builds, progress: map<nat, Read>, b: nat) returns (i: nat, values: seq<U64>)
    requires ValidId(w.at) && b in w.builders && b in progress && progress[b].Have?
    requires progress[b].edges != {} && |progress[b].edges| <= MAX_VEC
    ensures b in Actors(w, progress).plans && i < |Actors(w, progress).plans[b].records| && 2 <= |values| <= U64_MAX
    ensures Actors(w, progress).plans[b].records[i] == (ChunkKey(w.at, Pointers, 0), EncodeChunk(Pointers, 0, values))
  {
    hide *;
    var c := ImageOf(progress[b].edges);
    ActorsParts(w, progress);
    PlanForParts(w.at, progress[b]);
    SomePointers(c, progress[b].edges);
    i, values := |Chunks(c.vertices)|, Chunks(c.pointers)[0];
    FirstPointers(w.at, c);
  }

  lemma FirstPointers(at: ArtifactId, c: Csc)
    requires ValidId(at) && FitsMachine(c) && |Chunks(c.pointers)| > 0
    ensures |Chunks(c.vertices)| < |PlanOf(at, c, []).records|
    ensures PlanOf(at, c, []).records[|Chunks(c.vertices)|]
         == (ChunkKey(at, Pointers, 0), EncodeChunk(Pointers, 0, Chunks(c.pointers)[0]))
  {
    hide ChunkKey, EncodeChunk, EncodeManifest, ManifestOf, Chunks;
    RecordsCount(at, c);
    RecordAt(at, c, |Chunks(c.vertices)|);
  }

  lemma SomePointers(c: Csc, edges: set<Edge>)
    requires WellFormed(c) && FitsMachine(c) && DecodedUpto(c, |c.vertices|) == AdjacencyOf(edges) && edges != {}
    ensures |Chunks(c.pointers)| > 0 && 2 <= |Chunks(c.pointers)[0]| <= U64_MAX
  {
    var e :| e in edges;
    assert e.0 in Sources(edges);
    assert e.0 in AdjacencyOf(edges);
    assert |c.pointers| >= 2;
  }

  // Steps of builds.

  function ReadEvents(b: nat): seq<Event> { [ScanSingles(b)] + [ScanTombstones(b)] + [ScanSegments(b, [])] }

  /** Three scans with nothing in between. */
  lemma LiveRead(w: Builds, s: System, b: nat)
    requires ValidId(w.at) && b in s.progress && s.progress[b].Started? && b in s.core.phase && s.core.phase[b].Idle?
    requires |Visible(s.live, w.at.epoch)| <= MAX_VEC
    ensures Play(w, s, ReadEvents(b))
              == Some(s.(progress := s.progress[b := Have(Visible(s.live, w.at.epoch), [], true)]))
  {
    hide Play, SegmentEdges;
    PlayOne(w, s, ScanSingles(b));
    var s1 := After(w, s, ScanSingles(b));
    PlayThen(w, s, [ScanSingles(b)], ScanTombstones(b));
    var s2 := After(w, s1, ScanTombstones(b));
    assert Scanned(s2, b, w.at.epoch) == Visible(s.live, w.at.epoch);
    PlayThen(w, s, [ScanSingles(b)] + [ScanTombstones(b)], ScanSegments(b, []));
    assert s2.progress[b := Have(Visible(s.live, w.at.epoch), [], true)]
        == s.progress[b := Have(Visible(s.live, w.at.epoch), [], true)];
  }

  lemma BuilderGoes(w: Builds, s: System, a: World, b: nat)
    requires b in a.plans && b in s.progress && s.progress[b].Have?
    ensures AllGo(w, s, BuildSteps(a, b))
    ensures (s.progress[b].streamed ==> s.generation <= w.at.epoch) ==> Goes(w, s, Publish(b))
  {
  }

  /** One whole build on an empty store: up to its last record, and then the
      publication. */
  lemma BuildAlone(w: Builds, s: System, b: nat) returns (events: seq<Event>, u: System, t: System)
    requires ValidId(w.at) && ValidBuilds(w) && b in w.builders && s.progress.Keys == w.builders
    requires s.core == EmptyState(Actors(w, s.progress)) && s.progress[b].Have?
    requires s.progress[b].streamed ==> s.generation <= w.at.epoch
    ensures Play(w, s, events) == Some(u) && Ready(w, u, Protocol(Publish(b))) && t == After(w, u, Protocol(Publish(b)))
    ensures Publishes(w, u, Protocol(Publish(b))) && SameBeside(s, t)
    ensures Built(Actors(w, s.progress), t.core, b)
  {
    hide *;
    var a := Actors(w, s.progress);
    ActorsValid(w, s.progress);
    ActorsParts(w, s.progress);
    PublishedBuild(a, b);
    BuilderGoes(w, s, a, b);
    Lift(w, s, BuildSteps(a, b));
    events := Lifted(BuildSteps(a, b));
    u := Play(w, s, events).value;
    GoesOn(w, s, u, Publish(b));
    LiftOne(w, u, Publish(b));
    t := After(w, u, Protocol(Publish(b)));
    SameTwice(s, u, t);
    NotRefused(w, u, b);
  }

  lemma GoesOn(w: Builds, s: System, t: System, st: Step)
    requires SameBeside(s, t)
    ensures t.progress == s.progress && (Goes(w, s, st) ==> Goes(w, t, st))
  {
  }

  lemma SameTwice(s: System, t: System, u: System)
    requires SameBeside(s, t) && SameBeside(t, u)
    ensures SameBeside(s, u)
  {
  }

  lemma NotRefused(w: Builds, s: System, b: nat)
    requires b in w.builders && Goes(w, s, Publish(b)) && MarkerKey(w.at) !in s.core.store
    ensures Publishes(w, s, Protocol(Publish(b)))
  {
  }

  lemma ReadyToStart(w: Builds, s: System, b: nat)
    requires ValidId(w.at) && b in w.builders && b in s.progress && s.progress[b].NotStarted?
    requires b in s.core.phase && s.core.phase[b].Idle? && s.sequence == w.at.epoch
    requires forall d :: d in w.builders && d in w.proc && b in w.proc && w.proc[d] == w.proc[b] && Busy(s, d) ==>
               w.permits > 1 && (forall e :: Busy(s, e) ==> e == d)
    ensures Ready(w, s, Start(b)) && After(w, s, Start(b)) == s.(progress := s.progress[b := Started])
  {
    var beside := BusyBeside(w, s, b);
    if beside != {} {
      var d :| d in beside;
      assert beside == {d};
    }
  }

  // Two builds under way together.

  const ONE: set<Edge> := {(1, 2)}

  ghost function BothStarted(w: Builds, b: nat, d: nat): map<nat, Read> { Nobody(w)[b := Started][d := Started] }

  /** They are admitted when they are in two processes or there is a second permit. */
  lemma BothStart(w: Builds, b: nat, d: nat)
    requires ValidBuilds(w) && b in w.builders && d in w.builders && b != d
    requires w.proc[b] == w.proc[d] ==> w.permits > 1
    ensures Play(w, Begin(w, EMPTY, 0), [Start(b)] + [Start(d)])
         == Some(Begin(w, EMPTY, 0).(progress := BothStarted(w, b, d)))
  {
    hide Play, Ready, After, Visible, Actors;
    EmptyCore(w, Nobody(w));
    hide EmptyState;
    var s := Begin(w, EMPTY, 0);
    ReadyToStart(w, s, b);
    PlayOne(w, s, Start(b));
    ReadyToStart(w, After(w, s, Start(b)), d);
    PlayThen(w, s, [Start(b)], Start(d));
  }

  lemma NothingVisible(epoch: nat)
    ensures Visible(EMPTY, epoch) == {}
  {
  }

  lemma OneVisible(n: nat, epoch: nat)
    ensures Visible(Mutated(EMPTY, Mutation(ONE, {}, {}, {}), n), epoch) == ONE
  {
  }

  /** An artifact of no edges is published, and `d` has not written yet. */
  ghost predicate NonePublished(w: Builds, s: System, d: nat)
    requires ValidId(w.at)
  {
    && s.progress.Keys == w.builders && d in w.builders
    && s.core.phase.Keys == w.proc.Keys && d in w.proc && s.core.phase[d].Idle? && s.core.locks == map[]
    && MarkerKey(w.at) !in s.core.store && ManifestKey(w.at) in s.core.store
    && CscKey(w.at) in s.core.store && s.core.store[CscKey(w.at)] == EncodeManifest(ManifestOf(w.at, NOTHING))
  }

  lemma BuiltNone(w: Builds, s: System, t: System, b: nat, d: nat)
    requires ValidBuilds(w) && b in w.builders && d in w.builders && b != d && s.progress.Keys == w.builders
    requires s.progress[b].Have? && s.progress[b].edges == {} && SameBeside(s, t)
    requires Built(Actors(w, s.progress), t.core, b)
    ensures NonePublished(w, t, d)
  {
    PlanOfNone(w, s.progress, b);
    ActorsParts(w, s.progress);
    hide Actors, ManifestKey, MarkerKey, CscKey, EncodeManifest, ManifestOf, Stored, PlanFor;
  }

  /** The first of two builds under way publishes. */
  lemma FirstPublishes(w: Builds, b: nat, d: nat) returns (events: seq<Event>, t: System)
    requires ValidId(w.at) && ValidBuilds(w) && b in w.builders && d in w.builders && b != d
    requires b in w.proc && d in w.proc
    requires w.proc[b] == w.proc[d] ==> w.permits > 1
    ensures Play(w, Begin(w, EMPTY, 0), events) == Some(t) && NonePublished(w, t, d)
    ensures t.live == EMPTY && d in t.progress && t.progress[d] == Started
  {
    hide *;
    BothStart(w, b, d);
    BeginParts(w, EMPTY, 0);
    BothParts(w, b, d);
    NothingVisible(w.at.epoch);
    var s0, e1 := Begin(w, EMPTY, 0), [Start(b)] + [Start(d)];
    var s1 := s0.(progress := BothStarted(w, b, d));
    FewEdges();
    LiveRead(w, s1, b);
    var s2 := s1.(progress := s1.progress[b := Have({}, [], true)]);
    PlayConcat(w, s0, e1, ReadEvents(b));
    EmptyCore(w, s2.progress);
    var e2, u, t0 := BuildAlone(w, s2, b);
    PlayConcat(w, s0, e1 + ReadEvents(b), e2);
    PlayThen(w, s0, e1 + ReadEvents(b) + e2, Protocol(Publish(b)));
    events, t := e1 + ReadEvents(b) + e2 + [Protocol(Publish(b))], t0;
    SameMeans(s2, t);
    BuiltNone(w, s2, t, b, d);
  }

  lemma BeginParts(w: Builds, live: Topology, generation: nat)
    requires ValidBuilds(w)
    ensures ValidId(w.at)
    ensures var s := Begin(w, live, generation);
            && s.core == EmptyState(Actors(w, Nobody(w))) && s.live == live && s.generation == generation
            && s.atEpoch == Visible(live, w.at.epoch) && s.sequence == w.at.epoch && s.progress == Nobody(w)
            && s.core.phase.Keys == w.proc.Keys && (forall a :: a in w.proc ==> s.core.phase[a].Idle?)
            && w.builders <= w.proc.Keys
  {
    hide Actors, Visible;
    EmptyCore(w, Nobody(w));
    hide EmptyState;
  }

  lemma BothParts(w: Builds, b: nat, d: nat)
    requires b in w.builders && d in w.builders && b != d
    ensures BothStarted(w, b, d).Keys == w.builders
    ensures BothStarted(w, b, d)[b] == Started && BothStarted(w, b, d)[d] == Started
  {
  }

  lemma FewEdges()
    ensures (var none: set<Edge> := {}; |none| <= MAX_VEC) && |ONE| <= MAX_VEC
  {
  }

  lemma SameMeans(s: System, t: System)
    requires SameBeside(s, t)
    ensures t.progress == s.progress && t.live == s.live && t.generation == s.generation && t.atEpoch == s.atEpoch
  {
  }

  /** Then an edge is committed, and the second build reads it. */
  lemma LateRead(w: Builds, s: System, d: nat) returns (events: seq<Event>, t: System)
    requires ValidId(w.at) && NonePublished(w, s, d) && s.live == EMPTY && d in s.progress && s.progress[d] == Started
    ensures Play(w, s, events) == Some(t) && NonePublished(w, t, d)
    ensures d in t.progress && t.progress[d] == Have(ONE, [], true)
  {
    hide Play, Visible, MarkerKey, ManifestKey, CscKey, EncodeManifest, ManifestOf, Mutated, Exec, Enabled, Actors;
    var commit := Commit(Mutation(ONE, {}, {}, {}));
    PlayOne(w, s, commit);
    var u := After(w, s, commit);
    OneVisible(s.sequence + 1, w.at.epoch);
    FewEdges();
    LiveRead(w, u, d);
    PlayConcat(w, s, [commit], ReadEvents(d));
    events, t := [commit] + ReadEvents(d), u.(progress := u.progress[d := Have(ONE, [], true)]);
  }

  /** It puts its records over the published ones before it finds out. */
  lemma LatePuts(w: Builds, s: System, d: nat) returns (events: seq<Event>, t: System)
    requires ValidId(w.at) && ValidBuilds(w) && NonePublished(w, s, d) && d in s.progress
    requires s.progress[d] == Have(ONE, [], true)
    ensures Play(w, s, events) == Some(t) && !Exact(w, t)
  {
    ActorsValid(w, s.progress);
    ActorsParts(w, s.progress);
    var a := Actors(w, s.progress);
    FewEdges();
    var i, values := PlanOfSome(w, s.progress, d);
    var records := a.plans[d].records;
    hide *;
    NoneParts(w, s, d);
    BuildUp(a, s.core, d);
    BuilderGoes(w, s, a, d);
    Lift(w, s, BuildSteps(a, d));
    events := Lifted(BuildSteps(a, d));
    t := Play(w, s, events).value;
    PutOver(a, s.core.store, d, i);
    SpoiledIsNotExact(w, t, values);
  }

  lemma NoneParts(w: Builds, s: System, d: nat)
    requires ValidId(w.at) && NonePublished(w, s, d)
    ensures d in w.builders && d in w.proc && d in s.core.phase && s.core.phase[d] == Idle && w.proc[d] !in s.core.locks
    ensures MarkerKey(w.at) !in s.core.store && ManifestKey(w.at) in s.core.store
    ensures CscKey(w.at) in s.core.store && s.core.store[CscKey(w.at)] == EncodeManifest(ManifestOf(w.at, NOTHING))
  {
  }

  lemma PutOver(a: World, store: Store, d: nat, i: nat)
    requires ValidWorld(a) && d in a.plans && i < |a.plans[d].records|
    ensures var t, r := ApplyOps(store, Puts(a.plans[d].records)), a.plans[d].records[i];
            && r.0 in t && t[r.0] == r.1
            && forall k :: k in {ManifestKey(a.at), CscKey(a.at)} && k in store ==> k in t && t[k] == store[k]
  {
    var records := a.plans[d].records;
    assert ValidPlan(a.at, a.plans[d]);
    hide ApplyOps, Puts, ManifestKey, CscKey, MarkerKey;
    PutsKeepOthers(a, d, store, 0, |records|);
    assert records[0..0 + |records|] == records;
    PutsEffect(store, records);
  }

  /** Two builds of one epoch under way together: the first publishes, an edge is
      committed, and the second overwrites the published records with those of the
      later edges. */
  lemma TwoBuildsBreak(w: Builds, b: nat, d: nat)
    requires ValidId(w.at) && ValidBuilds(w) && b in w.builders && d in w.builders && b != d
    requires b in w.proc && d in w.proc
    requires w.proc[b] == w.proc[d] ==> w.permits > 1
    ensures !AlwaysExact(w)
  {
    hide *;
    var s0 := Begin(w, EMPTY, 0);
    var e1, s1 := FirstPublishes(w, b, d);
    var e2, s2 := LateRead(w, s1, d);
    var e3, s3 := LatePuts(w, s2, d);
    PlayConcat(w, s0, e1, e2);
    PlayConcat(w, s0, e1 + e2, e3);
    EmptyStamped(w.at.epoch);
    BeginIsInit(w, EMPTY, 0);
    PlayIsHistory(w, s0, e1 + e2 + e3);
  }

  lemma EmptyStamped(n: nat)
    ensures Stamped(EMPTY, n)
  {
  }

  // Compaction past the epoch.

  /** One edge, in a segment stamped `n`. */
  function InSegment(n: nat): Topology { Topology({}, {((1, 2), n)}, map[]) }

  lemma InSegmentVisible(n: nat, epoch: nat)
    ensures Visible(InSegment(n), epoch) == if n <= epoch then ONE else {}
    ensures Stamped(InSegment(n), n)
  {
    var t := InSegment(n);
    forall e ensures e in SegmentEdges(t.segments, t.tombstones, epoch) <==> n <= epoch && e == (1, 2) {
      assert n <= epoch ==> Shows(t.segments, t.tombstones, epoch, ((1, 2), n));
    }
  }

  /** Compaction moves the segment to its own epoch. */
  lemma InSegmentCompacted(n: nat, through: nat)
    requires n <= through
    ensures Compacted(InSegment(n), 1, through) == InSegment(through)
  {
    var t, c := InSegment(n), Compacted(InSegment(n), 1, through);
    assert Shows(t.segments, t.tombstones, through, ((1, 2), n));
    forall p ensures p in c.segments <==> p == ((1, 2), through) {
      assert p.0 == (1, 2) && p.1 == through ==> p == ((1, 2), through);
    }
    assert c.segments == InSegment(through).segments;
    assert c.tombstones == map[];
  }

  /** A build at an epoch that compaction has passed reads nothing there. */
  lemma ReadsTooLate(w: Builds, b: nat, through: nat) returns (events: seq<Event>, s: System)
    requires ValidId(w.at) && ValidBuilds(w) && b in w.builders && through in w.indexed && w.at.epoch < through
    ensures Play(w, Begin(w, InSegment(w.at.epoch), w.at.epoch), events) == Some(s)
    ensures s.core == EmptyState(Actors(w, s.progress)) && s.progress.Keys == w.builders && s.generation <= w.at.epoch
    ensures s.progress[b] == Have({}, [], false) && s.atEpoch == ONE
  {
    hide Play, Visible, Compacted, Actors, EmptyState, Stamped, InSegment, Exec, Enabled, ManifestKey;
    var n := w.at.epoch;
    BeginParts(w, InSegment(n), n);
    hide Begin;
    InSegmentVisible(n, n);
    InSegmentVisible(through, n);
    InSegmentCompacted(n, through);
    FewEdges();
    var s0 := Begin(w, InSegment(n), n);
    PlayOne(w, s0, Elsewhere(through));
    var s1 := After(w, s0, Elsewhere(through));
    PlayThen(w, s0, [Elsewhere(through)], Compact(1, through));
    var s2 := After(w, s1, Compact(1, through));
    assert BusyBeside(w, s2, b) == {};
    PlayThen(w, s0, [Elsewhere(through)] + [Compact(1, through)], Snapshot(b, []));
    events, s := [Elsewhere(through)] + [Compact(1, through)] + [Snapshot(b, [])], After(w, s2, Snapshot(b, []));
    EmptyCore(w, s.progress);
  }

  lemma PublishesLast(w: Builds, s: System, a: seq<Event>, u: System, ev: Event)
    requires ValidId(w.at) && Init(w, s) && Play(w, s, a) == Some(u) && Ready(w, u, ev) && Publishes(w, u, ev)
    ensures PublishesExactly(w) ==> Exact(w, After(w, u, ev))
  {
    hide Ready, After, Init, Exact, Publishes, Play;
    var states, events := SystemsOf(w, s, a) + [After(w, u, ev)], a + [ev];
    assert IsHistory(w, states, events);
    assert states[|events| - 1] == u && events[|events| - 1] == ev && states[|events| - 1 + 1] == After(w, u, ev);
  }

  lemma NoneIsNotOne(store: Store, at: ArtifactId)
    requires ValidId(at) && ReadsEdges(store, at, {})
    ensures !ReadsEdges(store, at, ONE)
  {
    hide ReadArtifact, DecodedUpto, WellFormed;
    assert (1, 2) in ONE && (1, 2).0 in Sources(ONE);
    assert 1 in AdjacencyOf(ONE) && 1 !in AdjacencyOf({});
  }

  lemma NoneReadBack(w: Builds, s: System, t: System, b: nat)
    requires ValidId(w.at) && b in w.builders && b in s.progress && s.progress[b].Have? && s.progress[b].edges == {}
    requires Built(Actors(w, s.progress), t.core, b) && t.atEpoch == ONE
    ensures !Exact(w, t)
  {
    hide Actors, PlanFor, PlanOf, ImageOf, Stored, CscKey, ManifestKey, MarkerKey, EncodeManifest, ManifestOf,
        ReadsEdges;
    ActorsParts(w, s.progress);
    PlanForParts(w.at, s.progress[b]);
    RecordsReadBack(t.core.store, w.at, {});
    NoneIsNotOne(t.core.store, w.at);
  }

  /** The index is available at a later epoch and a source is compacted up to it:
      a build of this epoch skips the compacted segment, passes every check, and
      publishes an artifact without its edges. */
  lemma LaterCompactionBreaks(w: Builds, b: nat, through: nat)
    requires ValidId(w.at) && ValidBuilds(w) && b in w.builders && through in w.indexed && w.at.epoch < through
    ensures !AlwaysExact(w) && !PublishesExactly(w)
  {
    hide *;
    var live := InSegment(w.at.epoch);
    var s0 := Begin(w, live, w.at.epoch);
    var e1, s1 := ReadsTooLate(w, b, through);
    var e2, u, t := BuildAlone(w, s1, b);
    PlayConcat(w, s0, e1, e2);
    PlayThen(w, s0, e1 + e2, Protocol(Publish(b)));
    SameMeans(s1, t);
    NoneReadBack(w, s1, t, b);
    InSegmentVisible(w.at.epoch, w.at.epoch);
    BeginIsInit(w, live, w.at.epoch);
    PlayIsHistory(w, s0, e1 + e2 + [Protocol(Publish(b))]);
    PublishesLast(w, s0, e1 + e2, u, Protocol(Publish(b)));
  }

  // A cleaner of another process.

  lemma StartsAndReads(w: Builds, b: nat) returns (events: seq<Event>, s: System)
    requires ValidId(w.at) && ValidBuilds(w) && b in w.builders
    ensures Play(w, Begin(w, EMPTY, 0), events) == Some(s)
    ensures s.core == EmptyState(Actors(w, s.progress)) && s.progress.Keys == w.builders && s.generation <= w.at.epoch
    ensures s.progress[b] == Have({}, [], true)
  {
    hide Play, Visible, Actors, EmptyState, Ready, After;
    BeginParts(w, EMPTY, 0);
    hide Begin;
    var s0 := Begin(w, EMPTY, 0);
    ReadyToStart(w, s0, b);
    PlayOne(w, s0, Start(b));
    var s1 := After(w, s0, Start(b));
    NothingVisible(w.at.epoch);
    FewEdges();
    LiveRead(w, s1, b);
    PlayConcat(w, s0, [Start(b)], ReadEvents(b));
    events, s := [Start(b)] + ReadEvents(b), s1.(progress := s1.progress[b := Have({}, [], true)]);
    EmptyCore(w, s.progress);
  }

  lemma UnguardedGoes(w: Builds, s: System, a: World, b: nat, c: nat)
    requires b in a.plans && a.plans[b].records != [] && b in s.progress && s.progress[b].Have? && c !in w.builders
    requires s.generation <= w.at.epoch
    ensures AllGo(w, s, UnguardedSteps(a, b, c))
  {
  }

  lemma UnguardedBuildBreaks(w: Builds, b: nat, c: nat)
    requires ValidId(w.at) && ValidBuilds(w) && b in w.builders && c in w.tokens && b in w.proc && c in w.proc
    requires w.proc[b] != w.proc[c] && c !in w.builders
    ensures !AlwaysExact(w)
  {
    hide *;
    var s0 := Begin(w, EMPTY, 0);
    var e1, s1 := StartsAndReads(w, b);
    var a := Actors(w, s1.progress);
    ActorsValid(w, s1.progress);
    ActorsParts(w, s1.progress);
    PlanOfNone(w, s1.progress, b);
    UnguardedRun(a, b, c);
    UnguardedGoes(w, s1, a, b, c);
    Lift(w, s1, UnguardedSteps(a, b, c));
    PlayConcat(w, s0, e1, Lifted(UnguardedSteps(a, b, c)));
    EmptyStamped(w.at.epoch);
    BeginIsInit(w, EMPTY, 0);
    PlayIsHistory(w, s0, e1 + Lifted(UnguardedSteps(a, b, c)));
    ZerosFit();
    SpoiledIsNotExact(w, Play(w, s1, Lifted(UnguardedSteps(a, b, c))).value, [0, 0]);
  }

  lemma ZerosFit()
    ensures 2 <= U64_MAX
  {
  }

  // The exact conditions.

  lemma {:induction false} HistoryCore(w: Builds, states: seq<System>, events: seq<Event>, i: nat)
    requires ValidBuilds(w) && OneGuard(w) && IsHistory(w, states, events) && i <= |events|
    ensures Shape(w, states[i]) && Settled(states[i]) && CoreOk(w, states[i])
  {
    hide Ready, After, Init, OneGuard, Shape, Settled, CoreOk;
    if i == 0 {
      BaseInit(w, states[0]);
    } else {
      HistoryCore(w, states, events, i - 1);
      if events[i - 1].Protocol? {
        HoldingAfter(w, states[i - 1], events[i - 1].step);
        ProtocolCore(w, states[i - 1], events[i - 1].step);
      } else {
        OthersSettle(w, states[i - 1], events[i - 1]);
      }
    }
  }

  lemma NoBuilderNoManifest(w: Builds, s: System)
    requires ValidId(w.at) && w.builders == {} && Shape(w, s) && Settled(s) && CoreOk(w, s)
    ensures Exact(w, s)
  {
    hide PlanFor, ManifestKey, MarkerKey, CscKey, ReadsEdges;
    ActorsParts(w, s.progress);
  }

  lemma GuardedTogether(w: Builds)
    requires ValidBuilds(w) && CleanersGuarded(w) && OneBuild(w)
    ensures OneGuard(w)
  {
  }

  lemma NoBuildersOneGuard(w: Builds)
    requires w.builders == {}
    ensures OneGuard(w)
  {
  }

  /** Everything published is exact throughout every history if and only if nobody
      builds, or the index is available at no later epoch, the cleaners share the
      builders' guard and no two builds can be under way together. */
  lemma AlwaysExactly(w: Builds)
    requires ValidId(w.at) && ValidBuilds(w)
    ensures AlwaysExact(w) <==> w.builders == {} || (NoLaterIndex(w) && CleanersGuarded(w) && OneBuild(w))
  {
    hide Ready, After, Init, Exact, Shape, Settled, CoreOk, OneGuard;
    if w.builders == {} {
      NoBuildersOneGuard(w);
      forall states, events | IsHistory(w, states, events) ensures Exact(w, states[|events|]) {
        HistoryCore(w, states, events, |events|);
        NoBuilderNoManifest(w, states[|events|]);
      }
    } else if NoLaterIndex(w) && CleanersGuarded(w) && OneBuild(w) {
      GuardedTogether(w);
      forall states, events | IsHistory(w, states, events) ensures Exact(w, states[|events|]) {
        HistoryAlone(w, states, events, |events|);
        HarmlessHistory(w, states, events, |events|);
      }
    } else {
      hide AlwaysExact;
      if through :| through in w.indexed && w.at.epoch < through {
        var b :| b in w.builders;
        LaterCompactionBreaks(w, b, through);
      } else if b, c :| b in w.builders && c in w.tokens && b in w.proc && c in w.proc && w.proc[c] != w.proc[b] {
        UnguardedBuildBreaks(w, b, c);
      } else {
        var b, d :| b in w.builders && b in w.proc && d in w.builders && d in w.proc && b != d
                    && !(w.proc[b] == w.proc[d] && w.permits <= 1);
        TwoBuildsBreak(w, b, d);
      }
    }
  }

  lemma NobodyPublishes(w: Builds, s: System, ev: Event)
    requires ValidId(w.at) && w.builders == {} && Ready(w, s, ev)
    ensures !Publishes(w, s, ev)
  {
    hide PlanFor, ManifestKey, MarkerKey;
  }

  /** Within one process, every publication is exact at the moment it is made,
      torn scans included, if and only if nobody builds or the index is available
      at no later epoch. */
  lemma PublishedExactly(w: Builds)
    requires ValidId(w.at) && ValidBuilds(w) && OneGuard(w)
    ensures PublishesExactly(w) <==> w.builders == {} || NoLaterIndex(w)
  {
    hide Exact, Ready, After, Publishes, OneGuard, Base, Init;
    if w.builders == {} || NoLaterIndex(w) {
      forall states, events | IsHistory(w, states, events) && events != []
                              && Publishes(w, states[|events| - 1], events[|events| - 1])
        ensures Exact(w, states[|events| - 1 + 1])
      {
        var n := |events| - 1;
        if w.builders == {} {
          NobodyPublishes(w, states[n], events[n]);
        } else {
          HistoryBase(w, states, events, n);
          PublicationExact(w, states[n], events[n]);
        }
      }
    } else {
      var through :| through in w.indexed && w.at.epoch < through;
      var b :| b in w.builders;
      hide PublishesExactly;
      LaterCompactionBreaks(w, b, through);
    }
  }
}
