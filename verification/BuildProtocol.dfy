/** Whole builds of one artifact epoch against a topology that goes on changing:
    what they scan and when, the checks before and after, and the publish and
    cleanup protocol in between. */
module BuildProtocol {
  import opened Basics
  import opened Ascending
  import opened Binary
  import opened WriteBatch
  import opened Rows
  import opened CscImage
  import opened CscArtifact
  import opened ArtifactPipeline
  import opened ArtifactProtocol
  import opened PublishedArtifact
  import opened LiveTopology
  import ArtifactLoad

  // What a build writes for the edges it has read.

  ghost function RowsFor(edges: set<Edge>): RowMap {
    map s | s in Sources(edges) :: Listing(Targets(edges, s))
  }

  lemma RowsForEdges(edges: set<Edge>)
    ensures Normal(RowsFor(edges)) && Edges(RowsFor(edges)) == edges
  {
    var rows := RowsFor(edges);
    forall s | s in rows ensures rows[s] != [] && forall d :: d in rows[s] <==> (s, d) in edges {
      var e :| e in edges && e.0 == s;
      assert e.1 in Targets(edges, s);
      assert forall d :: d in rows[s] <==> d in Elems(rows[s]);
      assert forall d :: d in Targets(edges, s) ==> (s, d) in edges;
      assert forall d :: (s, d) in edges ==> (s, d).1 in Targets(edges, s);
    }
    forall e: Edge ensures e in Edges(rows) <==> e in edges {
      if e in edges { assert e.0 in Sources(edges) && (e.0, e.1) in edges; }
    }
  }

  ghost function ImageOf(edges: set<Edge>): (c: Csc)
    requires |edges| <= MAX_VEC
    ensures FitsMachine(c) && WellFormed(c) && DecodedUpto(c, |c.vertices|) == AdjacencyOf(edges)
  {
    RowsForEdges(edges);
    EdgesImage(edges, RowsFor(edges));
    CscOf(RowsFor(edges))
  }

  /** How far a build has read. A streamed build makes three scans of the live
      records; any other reads one snapshot. */
  datatype Read =
    | NotStarted
    | Started
    | SawSingles(singles: set<Edge>)
    | SawTombstones(singles: set<Edge>, tombstones: Tombstones)
    | Have(edges: set<Edge>, manifest: Bytes, streamed: bool)

  ghost function PlanFor(at: ArtifactId, r: Read): Plan
    requires ValidId(at)
  {
    if r.Have? && |r.edges| <= MAX_VEC then PlanOf(at, ImageOf(r.edges), r.manifest)
    else PlanOf(at, ImageOf({}), [])
  }

  /** The builds and cleanup runs of one epoch. `permits` is how many builds a
      process admits at a time; `indexed` holds the other epochs at which the index
      is or becomes available, up to which segments may therefore be compacted. */
  datatype Builds = Builds(at: ArtifactId, builders: set<nat>, tokens: map<nat, Bytes>, proc: map<nat, nat>,
                           permits: nat, indexed: set<nat>)

  ghost predicate ValidBuilds(w: Builds) {
    && ValidId(w.at)
    && w.builders !! w.tokens.Keys
    && w.proc.Keys == w.builders + w.tokens.Keys
    && (forall c, d :: c in w.tokens && d in w.tokens && c != d ==> w.tokens[c] != w.tokens[d])
  }

  /** The protocol's actors, given what the builders have read. */
  ghost function Actors(w: Builds, progress: map<nat, Read>): World
    requires ValidId(w.at)
  {
    var plans := map b | b in w.builders :: PlanFor(w.at, if b in progress then progress[b] else NotStarted);
    World(w.at, plans, w.tokens, w.proc)
  }

  /** The store with its protocol state, the sequence of the last write, the
      sequence of the last topology write, the records now, and the edges there
      were at the artifact's epoch (so far, while it is ahead). */
  datatype System = System(core: State, sequence: nat, generation: nat, live: Topology, atEpoch: set<Edge>,
                           progress: map<nat, Read>)

  ghost predicate Init(w: Builds, s: System)
    requires ValidId(w.at)
  {
    && Fresh(Actors(w, s.progress), s.core)
    && s.progress.Keys == w.builders && (forall b :: b in s.progress ==> s.progress[b] == NotStarted)
    && s.generation <= s.sequence <= w.at.epoch
    && Stamped(s.live, s.sequence) && s.atEpoch == Visible(s.live, s.sequence)
  }

  datatype Event =
    | Commit(mutation: Mutation)
    | Elsewhere(upto: nat)
    | Compact(src: U64, through: nat)
    | Start(builder: nat)
    | ScanSingles(builder: nat)
    | ScanTombstones(builder: nat)
    | ScanSegments(builder: nat, manifest: Bytes)
    | Snapshot(builder: nat, manifest: Bytes)
    | Protocol(step: Step)

  /** A build that holds its permit. */
  predicate Busy(s: System, b: nat) {
    b in s.progress && !s.progress[b].NotStarted? && b in s.core.phase && !s.core.phase[b].Finished?
  }

  ghost function BusyBeside(w: Builds, s: System, b: nat): set<nat> {
    set d | d in w.builders && d in w.proc && b in w.proc && w.proc[d] == w.proc[b] && Busy(s, d)
  }

  /** A permit is free, and the build has not begun. */
  ghost predicate Admitted(w: Builds, s: System, b: nat) {
    && b in w.builders && b in s.progress && s.progress[b].NotStarted? && b in s.core.phase && s.core.phase[b].Idle?
    && |BusyBeside(w, s, b)| < Max(w.permits, 1)
  }

  predicate Scanning(s: System, b: nat) {
    b in s.progress && b in s.core.phase && s.core.phase[b].Idle?
  }

  /** The rows of the three scans together. */
  ghost function Scanned(s: System, b: nat, epoch: nat): set<Edge>
    requires b in s.progress && s.progress[b].SawTombstones?
  {
    s.progress[b].singles + SegmentEdges(s.live.segments, s.progress[b].tombstones, epoch)
  }

  ghost predicate Ready(w: Builds, s: System, ev: Event)
    requires ValidId(w.at)
  {
    match ev
    case Commit(_) => true
    case Elsewhere(upto) => s.sequence < upto
    case Compact(_, through) =>
      through <= s.sequence && (through in w.indexed || (through == w.at.epoch && ManifestKey(w.at) in s.core.store))
    case Start(b) => Admitted(w, s, b) && s.sequence == w.at.epoch
    case ScanSingles(b) => Scanning(s, b) && s.progress[b].Started?
    case ScanTombstones(b) => Scanning(s, b) && s.progress[b].SawSingles?
    case ScanSegments(b, _) => Scanning(s, b) && s.progress[b].SawTombstones? && |Scanned(s, b, w.at.epoch)| <= MAX_VEC
    case Snapshot(b, _) =>
      && Admitted(w, s, b) && s.generation <= w.at.epoch <= s.sequence
      && |Visible(s.live, w.at.epoch)| <= MAX_VEC
    case Protocol(st) =>
      && Enabled(Actors(w, s.progress), s.core, st)
      && (st.actor in w.builders && !st.Crash? ==> st.actor in s.progress && s.progress[st.actor].Have?)
  }

  /** A streamed build gives up when the topology has moved past its epoch. */
  predicate Refused(w: Builds, s: System, st: Step) {
    && st.Publish? && st.actor in s.progress && s.progress[st.actor].Have? && s.progress[st.actor].streamed
    && s.generation > w.at.epoch
  }

  /** The step commits a batch, and so takes a sequence. */
  ghost predicate Submits(w: World, s: State, st: Step)
    requires Enabled(w, s, st)
  {
    match st
    case PutRecords(_, _) => true
    case Publish(a) => WriteManifest(w, s.store, a).Committed?
    case Prepare(a) => s.phase[a].marker.Some? && DropMarker(w, s.store, s.phase[a].marker.value).Committed?
    case Claim(a) => WriteClaim(w, s.store, a).Committed?
    case DeleteBatch(a, keys) => keys != [] && WriteDeletes(w, s.store, a, keys).Committed?
    case Release(a) => DropMarker(w, s.store, w.tokens[a]).Committed?
    case _ => false
  }

  ghost function After(w: Builds, s: System, ev: Event): System
    requires ValidId(w.at) && Ready(w, s, ev)
  {
    match ev
    case Commit(m) =>
      var n := s.sequence + 1;
      var live := Mutated(s.live, m, n);
      s.(sequence := n, generation := n, live := live,
         atEpoch := if n <= w.at.epoch then Visible(live, n) else s.atEpoch)
    case Elsewhere(upto) => s.(sequence := upto)
    case Compact(src, through) => s.(sequence := s.sequence + 1, live := Compacted(s.live, src, through))
    case Start(b) => s.(progress := s.progress[b := Started])
    case ScanSingles(b) => s.(progress := s.progress[b := SawSingles(s.live.singles)])
    case ScanTombstones(b) => s.(progress := s.progress[b := SawTombstones(s.progress[b].singles, s.live.tombstones)])
    case ScanSegments(b, manifest) => s.(progress := s.progress[b := Have(Scanned(s, b, w.at.epoch), manifest, true)])
    case Snapshot(b, manifest) => s.(progress := s.progress[b := Have(Visible(s.live, w.at.epoch), manifest, false)])
    case Protocol(st) =>
      var actors := Actors(w, s.progress);
      if Refused(w, s, st) then s.(core := Exec(actors, s.core, Crash(st.actor)))
      else s.(core := Exec(actors, s.core, st), sequence := s.sequence + if Submits(actors, s.core, st) then 1 else 0)
  }

  // Runs.

  ghost predicate IsHistory(w: Builds, states: seq<System>, events: seq<Event>)
    requires ValidId(w.at)
  {
    && |states| == |events| + 1
    && Init(w, states[0])
    && forall i :: 0 <= i < |events| ==>
        Ready(w, states[i], events[i]) && states[i + 1] == After(w, states[i], events[i])
  }

  /** Whatever is published reads back as exactly the edges there were at the
      epoch. */
  ghost predicate Exact(w: Builds, s: System)
    requires ValidId(w.at)
  {
    ManifestKey(w.at) in s.core.store ==> ReadsEdges(s.core.store, w.at, s.atEpoch)
  }

  ghost predicate ReadsEdges(store: Store, at: ArtifactId, edges: set<Edge>)
    requires ValidId(at)
  {
    var r := ArtifactLoad.ReadArtifact(store, at);
    && r.Ok? && r.value.Some? && WellFormed(r.value.value)
    && DecodedUpto(r.value.value, |r.value.value.vertices|) == AdjacencyOf(edges)
  }

  ghost predicate AlwaysExact(w: Builds)
    requires ValidId(w.at)
  {
    forall states, events :: IsHistory(w, states, events) ==> Exact(w, states[|events|])
  }

  /** A publication that takes effect. */
  ghost predicate Publishes(w: Builds, s: System, ev: Event) {
    && ev.Protocol? && ev.step.Publish? && !Refused(w, s, ev.step)
    && MarkerKey(w.at) !in s.core.store
  }

  /** Every publication is exact at the moment it is made. */
  ghost predicate PublishesExactly(w: Builds)
    requires ValidId(w.at)
  {
    forall states, events :: IsHistory(w, states, events) && events != [] ==>
      var n := |events| - 1;
      Publishes(w, states[n], events[n]) ==> Exact(w, states[n + 1])
  }
}
