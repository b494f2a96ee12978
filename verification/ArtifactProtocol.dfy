/** Builders and cleaners of one artifact epoch, racing on a manifest key and a
    cleanup-marker key. Each step is one atomic read or one guarded write; a
    crash may strike between any two steps. */
module ArtifactProtocol {
  import opened Basics
  import opened Splitting
  import opened Numerals
  import opened Binary
  import opened WriteBatch
  import opened CscArtifact
  import Keys

  // The two arbitrating keys.

  function ManifestParts(at: ArtifactId): (r: seq<string>)
    ensures |r| == 6
  {
    ["cell", at.cell, "artifact", "matrix_manifest", at.edgeType, Pad20(at.epoch)]
  }

  function MarkerParts(at: ArtifactId): (r: seq<string>)
    ensures |r| == 6
  {
    ["cell", at.cell, "meta", "matrix_cleanup", at.edgeType, Pad20(at.epoch)]
  }

  function ManifestKey(at: ArtifactId): Key { Join(ManifestParts(at), '/') }

  function MarkerKey(at: ArtifactId): Key { Join(MarkerParts(at), '/') }

  lemma ArbiterPartsFree(at: ArtifactId)
    requires ValidId(at)
    ensures Free(ManifestParts(at), '/') && Free(MarkerParts(at), '/')
  {
    IdPartsFree(at);
    forall i | 0 <= i < 6 ensures '/' !in ManifestParts(at)[i] && '/' !in MarkerParts(at)[i] { }
  }

  lemma ArbitersDiffer(at: ArtifactId)
    requires ValidId(at)
    ensures ManifestKey(at) != MarkerKey(at)
  {
    ArbiterPartsFree(at);
    SplitJoin(ManifestParts(at), '/');
    SplitJoin(MarkerParts(at), '/');
    assert ManifestParts(at)[2] != MarkerParts(at)[2];
  }

  /** Keys the builders fill and the cleaners may delete. */
  predicate IsData(at: ArtifactId, k: Key) {
    k != ManifestKey(at) && k != MarkerKey(at)
  }

  /** What a cleanup scan finds below a prefix of at least six components is
      never one of the arbitrating keys. */
  lemma ScannedKeysAreData(at: ArtifactId, prefix: seq<string>, k: Key)
    requires ValidId(at) && |prefix| >= 6 && Free(prefix, '/')
    requires Join(prefix, '/') + "/" <= k
    ensures IsData(at, k)
  {
    ArbiterPartsFree(at);
    TerminatedPrefix(prefix, ManifestParts(at), '/');
    TerminatedPrefix(prefix, MarkerParts(at), '/');
  }

  lemma CscKeyIsData(at: ArtifactId)
    requires ValidId(at)
    ensures IsData(at, CscKey(at))
  {
    ArbiterPartsFree(at);
    CscKeyPartsFree(at);
    SplitJoin(ManifestParts(at), '/');
    SplitJoin(MarkerParts(at), '/');
    SplitJoin(CscKeyParts(at), '/');
    assert ManifestParts(at)[3] != CscKeyParts(at)[3] && MarkerParts(at)[3] != CscKeyParts(at)[3];
  }

  lemma ChunkKeyIsData(at: ArtifactId, f: Field, id: nat)
    requires ValidId(at) && id <= U64_MAX
    ensures IsData(at, ChunkKey(at, f, id))
  {
    ArbiterPartsFree(at);
    ChunkPartsFree(at, f, id);
    SplitJoin(ManifestParts(at), '/');
    SplitJoin(MarkerParts(at), '/');
    SplitJoin(ChunkParts(at, f, id), '/');
  }

  // The actors.

  /** What one build writes: its chunk records in order, then the two manifest
      values. */
  datatype Plan = Plan(records: seq<(Key, Bytes)>, manifest: Bytes, csc: Bytes)

  /** One artifact epoch with its builds and cleanup runs. `proc` is the process
      an actor runs in: the artifact guard is a lock of one process. Every
      cleanup run has its own token. */
  datatype World = World(at: ArtifactId, plans: map<nat, Plan>, tokens: map<nat, Bytes>, proc: map<nat, nat>)

  datatype Phase =
    | Idle
    | Locked                          // builder: holds the guard
    | Saw(marker: Option<Bytes>)      // builder: has read the marker
    | Writing(done: nat)              // builder: records written so far
    | Reading                         // cleaner: saw no manifest
    | Guarded                         // cleaner: holds the guard
    | Checked                         // cleaner: saw no manifest under the guard
    | Claimed                         // cleaner: its marker was written
    | Stopping                        // cleaner: a delete was refused
    | Finished

  predicate Holding(p: Phase) {
    !p.Idle? && !p.Reading? && !p.Finished?
  }

  /** `publisher` is the build whose manifest is stored. */
  datatype State = State(store: Store, phase: map<nat, Phase>, locks: map<nat, nat>, publisher: Option<nat>)

  ghost predicate ValidPlan(at: ArtifactId, p: Plan) {
    && p.records != []
    && (forall i :: 0 <= i < |p.records| ==> IsData(at, p.records[i].0) && p.records[i].0 != CscKey(at))
    && (forall i, j :: 0 <= i < j < |p.records| ==> p.records[i].0 != p.records[j].0)
  }

  ghost predicate ValidWorld(w: World) {
    && ValidId(w.at)
    && w.plans.Keys !! w.tokens.Keys
    && w.proc.Keys == w.plans.Keys + w.tokens.Keys
    && (forall b :: b in w.plans ==> ValidPlan(w.at, w.plans[b]))
    && (forall c, d :: c in w.tokens && d in w.tokens && c != d ==> w.tokens[c] != w.tokens[d])
  }

  /** Any store without a manifest; a stale marker of some earlier run may be
      there, but of none of these runs. */
  ghost predicate Fresh(w: World, s: State) {
    && s.phase.Keys == w.proc.Keys
    && (forall a :: a in w.proc ==> s.phase[a] == Idle)
    && s.locks == map[] && s.publisher == None
    && ManifestKey(w.at) !in s.store
    && (MarkerKey(w.at) in s.store ==> forall c :: c in w.tokens ==> s.store[MarkerKey(w.at)] != w.tokens[c])
  }

  datatype Step =
    | Acquire(actor: nat)
    | Crash(actor: nat)
    | ReadMarker(actor: nat)
    | Prepare(actor: nat)
    | PutRecords(actor: nat, count: nat)
    | Publish(actor: nat)
    | ReadManifest(actor: nat)
    | Recheck(actor: nat)
    | Claim(actor: nat)
    | DeleteBatch(actor: nat, keys: seq<Key>)
    | Release(actor: nat)

  // The guarded batches. Each body is the batch the code submits; the contract
  // says what the store looks like afterwards.

  /** `prepare_artifact_build` and the release of a claim: delete the marker if
      it still holds `m`. */
  function DropMarker(w: World, store: Store, m: Bytes): (r: WriteOutcome)
    ensures r == if MarkerKey(w.at) in store && store[MarkerKey(w.at)] == m
                 then Committed(store - {MarkerKey(w.at)}) else Conflict(MarkerKey(w.at))
  {
    OneGuardOneOp(store, Equals(MarkerKey(w.at), m), Delete(MarkerKey(w.at)));
    GuardedWrite(store, [Equals(MarkerKey(w.at), m)], [Delete(MarkerKey(w.at))])
  }

  /** Claiming a cleanup generation: only while no manifest exists. */
  function WriteClaim(w: World, store: Store, c: nat): (r: WriteOutcome)
    requires c in w.tokens
    ensures r == if ManifestKey(w.at) !in store
                 then Committed(store[MarkerKey(w.at) := w.tokens[c]]) else Conflict(ManifestKey(w.at))
  {
    OneGuardOneOp(store, Absent(ManifestKey(w.at)), Put(MarkerKey(w.at), w.tokens[c]));
    GuardedWrite(store, [Absent(ManifestKey(w.at))], [Put(MarkerKey(w.at), w.tokens[c])])
  }

  /** Publishing: only while no cleanup marker stands. */
  function WriteManifest(w: World, store: Store, b: nat): (r: WriteOutcome)
    requires b in w.plans
    ensures r == if MarkerKey(w.at) !in store
                 then Committed(store[ManifestKey(w.at) := w.plans[b].manifest][CscKey(w.at) := w.plans[b].csc])
                 else Conflict(MarkerKey(w.at))
  {
    PublishEffect(w, store, b);
    GuardedWrite(store, [Absent(MarkerKey(w.at))], PublishOps(w, b))
  }

  /** A cleanup delete: no manifest, and the marker is still this run's. */
  function WriteDeletes(w: World, store: Store, c: nat, keys: seq<Key>): (r: WriteOutcome)
    requires c in w.tokens
    ensures keys == [] || MayDelete(w, store, c) ==> r == Committed(store - Elems(keys))
    ensures keys != [] && !MayDelete(w, store, c) ==>
              r == Conflict(if ManifestKey(w.at) in store then ManifestKey(w.at) else MarkerKey(w.at))
  {
    DeleteEffect(w, store, c, keys);
    GuardedWrite(store, DeleteGuards(w, c), Deletes(keys))
  }

  function Puts(records: seq<(Key, Bytes)>): (r: seq<WriteOp>)
    ensures |r| == |records|
  {
    seq(|records|, i requires 0 <= i < |records| => Put(records[i].0, records[i].1))
  }

  function Deletes(keys: seq<Key>): (r: seq<WriteOp>)
    ensures |r| == |keys|
  {
    seq(|keys|, i requires 0 <= i < |keys| => Delete(keys[i]))
  }

  function PublishOps(w: World, b: nat): seq<WriteOp>
    requires b in w.plans
  {
    [Put(ManifestKey(w.at), w.plans[b].manifest), Put(CscKey(w.at), w.plans[b].csc)]
  }

  function DeleteGuards(w: World, c: nat): seq<WriteGuard>
    requires c in w.tokens
  {
    [Absent(ManifestKey(w.at)), Equals(MarkerKey(w.at), w.tokens[c])]
  }

  lemma PublishEffect(w: World, store: Store, b: nat)
    requires b in w.plans
    ensures GuardedWrite(store, [Absent(MarkerKey(w.at))], PublishOps(w, b))
         == if MarkerKey(w.at) !in store
            then Committed(store[ManifestKey(w.at) := w.plans[b].manifest][CscKey(w.at) := w.plans[b].csc])
            else Conflict(MarkerKey(w.at))
  {
    hide MarkerKey;
    hide ManifestKey;
    hide CscKey;
    var ops := PublishOps(w, b);
    OneGuardOneOp(store, Absent(MarkerKey(w.at)), ops[0]);
    assert ops[..1] == [ops[0]];
    assert ApplyOps(store, ops) == ApplyOp(ApplyOps(store, [ops[0]]), ops[1]);
    assert [Absent(MarkerKey(w.at))][1..] == [];
  }

  lemma {:induction false} DeletesEffect(store: Store, keys: seq<Key>)
    ensures ApplyOps(store, Deletes(keys)) == store - Elems(keys)
  {
    if keys != [] {
      var front, last := keys[..|keys| - 1], keys[|keys| - 1];
      DeletesEffect(store, front);
      assert Deletes(keys)[..|front|] == Deletes(front);
      assert keys == front + [last];
      assert Elems(keys) == Elems(front) + {last};
      assert (store - Elems(front)) - {last} == store - (Elems(front) + {last});
    } else {
      assert store - Elems(keys) == store;
    }
  }

  lemma DeleteEffect(w: World, store: Store, c: nat, keys: seq<Key>)
    requires c in w.tokens
    ensures var r := GuardedWrite(store, DeleteGuards(w, c), Deletes(keys));
            if keys == [] || MayDelete(w, store, c) then r == Committed(store - Elems(keys))
            else r == Conflict(if ManifestKey(w.at) in store then ManifestKey(w.at) else MarkerKey(w.at))
  {
    hide MarkerKey;
    hide ManifestKey;
    hide ApplyOps;
    DeletesEffect(store, keys);
    var g := DeleteGuards(w, c);
    assert g[0] in g && g[1] in g;
    assert keys == [] ==> store - Elems(keys) == store;
  }

  /** The guards of a cleanup delete hold. */
  predicate MayDelete(w: World, store: Store, c: nat) {
    && c in w.tokens
    && ManifestKey(w.at) !in store
    && MarkerKey(w.at) in store && store[MarkerKey(w.at)] == w.tokens[c]
  }

  /** The records are in the store with their planned values. */
  ghost predicate Stored(store: Store, records: seq<(Key, Bytes)>) {
    forall i :: 0 <= i < |records| ==> records[i].0 in store && store[records[i].0] == records[i].1
  }

  lemma {:induction false} PutsEffect(store: Store, records: seq<(Key, Bytes)>)
    requires forall i, j :: 0 <= i < j < |records| ==> records[i].0 != records[j].0
    ensures Stored(ApplyOps(store, Puts(records)), records)
    ensures forall k :: (forall i :: 0 <= i < |records| ==> records[i].0 != k) ==>
              (k in ApplyOps(store, Puts(records)) <==> k in store)
              && (k in store ==> ApplyOps(store, Puts(records))[k] == store[k])
    ensures forall k :: k in store ==> k in ApplyOps(store, Puts(records))
  {
    if records != [] {
      var front, last := records[..|records| - 1], records[|records| - 1];
      PutsEffect(store, front);
      assert Puts(records)[..|front|] == Puts(front);
      assert Puts(records)[|front|] == Put(last.0, last.1);
      var mid := ApplyOps(store, Puts(front));
      assert ApplyOps(store, Puts(records)) == mid[last.0 := last.1];
      forall k | forall i :: 0 <= i < |records| ==> records[i].0 != k
        ensures (k in mid[last.0 := last.1] <==> k in store) && (k in store ==> mid[last.0 := last.1][k] == store[k])
      {
        assert records[|front|].0 != k;
        assert forall i :: 0 <= i < |front| ==> front[i].0 == records[i].0;
      }
    }
  }

  ghost predicate Enabled(w: World, s: State, st: Step) {
    var a := st.actor;
    && a in s.phase && a in w.proc
    && match st
       case Acquire(_) => w.proc[a] !in s.locks && s.phase[a] == (if a in w.plans then Idle else Reading)
       case Crash(_) => true
       case ReadMarker(_) => s.phase[a].Locked?
       case Prepare(_) => s.phase[a].Saw?
       case PutRecords(_, n) => a in w.plans && s.phase[a].Writing? && 0 < n
           && s.phase[a].done + n <= |w.plans[a].records|
       case Publish(_) => a in w.plans && s.phase[a].Writing? && s.phase[a].done == |w.plans[a].records|
       case ReadManifest(_) => a in w.tokens && s.phase[a].Idle?
       case Recheck(_) => s.phase[a].Guarded?
       case Claim(_) => a in w.tokens && s.phase[a].Checked?
       case DeleteBatch(_, keys) => a in w.tokens && s.phase[a].Claimed? && forall k :: k in keys ==> IsData(w.at, k)
       case Release(_) => a in w.tokens && (s.phase[a].Claimed? || s.phase[a].Stopping?)
  }

  function To(s: State, a: nat, p: Phase): State { s.(phase := s.phase[a := p]) }

  /** Leaving the protected region: the guard is dropped with the lock value. */
  function Leave(w: World, s: State, a: nat): State
    requires a in w.proc && a in s.phase
  {
    var t := To(s, a, Finished);
    if Holding(s.phase[a]) then t.(locks := s.locks - {w.proc[a]}) else t
  }

  ghost function Exec(w: World, s: State, st: Step): (t: State)
    requires Enabled(w, s, st)
  {
    var a := st.actor;
    match st
    case Acquire(_) => To(s, a, if a in w.plans then Locked else Guarded).(locks := s.locks[w.proc[a] := a])
    case Crash(_) => Leave(w, s, a)
    case ReadMarker(_) =>
      To(s, a, Saw(if MarkerKey(w.at) in s.store then Some(s.store[MarkerKey(w.at)]) else None))
    case Prepare(_) =>
      if s.phase[a].marker.None? then To(s, a, Writing(0))
      else
        (match DropMarker(w, s.store, s.phase[a].marker.value)
         case Committed(store) => To(s, a, Writing(0)).(store := store)
         case Conflict(_) => Leave(w, s, a))
    case PutRecords(_, n) =>
      var i := s.phase[a].done;
      To(s, a, Writing(i + n)).(store := ApplyOps(s.store, Puts(w.plans[a].records[i..i + n])))
    case Publish(_) =>
      (match WriteManifest(w, s.store, a)
       case Committed(store) => Leave(w, s, a).(store := store, publisher := Some(a))
       case Conflict(_) => Leave(w, s, a))
    case ReadManifest(_) => To(s, a, if ManifestKey(w.at) in s.store then Finished else Reading)
    case Recheck(_) => if ManifestKey(w.at) in s.store then Leave(w, s, a) else To(s, a, Checked)
    case Claim(_) =>
      (match WriteClaim(w, s.store, a)
       case Committed(store) => To(s, a, Claimed).(store := store)
       case Conflict(_) => Leave(w, s, a))
    case DeleteBatch(_, keys) =>
      (match WriteDeletes(w, s.store, a, keys)
       case Committed(store) => s.(store := store)
       case Conflict(_) => To(s, a, Stopping))
    case Release(_) =>
      (match DropMarker(w, s.store, w.tokens[a])
       case Committed(store) => Leave(w, s, a).(store := store)
       case Conflict(_) => Leave(w, s, a))
  }
}
