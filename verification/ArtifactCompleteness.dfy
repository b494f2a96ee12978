/** When a published manifest always describes what is stored. */
module ArtifactCompleteness {
  import opened Basics
  import opened Binary
  import opened WriteBatch
  import opened CscArtifact
  import opened ArtifactProtocol
  import opened ArtifactSafety

  /** Two builds never put different values under one key. */
  ghost predicate Agree(p: seq<(Key, Bytes)>, q: seq<(Key, Bytes)>) {
    forall i, j :: 0 <= i < |p| && 0 <= j < |q| && p[i].0 == q[j].0 ==> p[i].1 == q[j].1
  }

  /** Builders and cleaners exclude each other through one artifact guard. */
  ghost predicate GuardShared(w: World)
    requires ValidWorld(w)
  {
    forall b, c :: b in w.plans && c in w.tokens ==> w.proc[b] == w.proc[c]
  }

  /** They do, and the builds agree on what they write. */
  ghost predicate Serialised(w: World)
    requires ValidWorld(w)
  {
    && GuardShared(w)
    && (forall b, d :: b in w.plans && d in w.plans ==> Agree(w.plans[b].records, w.plans[d].records))
  }

  /** What a step puts agrees with what other builds have written so far. */
  ghost predicate PutsAgree(w: World, s: State, st: Step) {
    st.PutRecords? && st.actor in w.plans ==>
      forall b :: b in w.plans && b in s.phase && b != st.actor && s.phase[b].Writing? ==>
        Agree(w.plans[b].records, w.plans[st.actor].records)
  }

  /** It agrees with what the manifest describes. */
  ghost predicate PutsFit(w: World, s: State, st: Step) {
    st.PutRecords? && st.actor in w.plans && s.publisher.Some? && s.publisher.value in w.plans ==>
      Agree(w.plans[s.publisher.value].records, w.plans[st.actor].records)
  }

  /** The stored manifest is backed by every record of the build that published
      it. */
  ghost predicate Complete(w: World, s: State) {
    s.publisher.Some? ==> s.publisher.value in w.plans && Stored(s.store, w.plans[s.publisher.value].records)
  }

  ghost predicate AlwaysComplete(w: World) {
    forall states, steps :: IsRun(w, states, steps) ==> Complete(w, states[|steps|])
  }

  /** A build in progress has everything it has written so far. */
  ghost predicate WritesKept(w: World, s: State) {
    forall b :: b in w.plans && b in s.phase && s.phase[b].Writing? ==>
      s.phase[b].done <= |w.plans[b].records| && Stored(s.store, w.plans[b].records[..s.phase[b].done])
  }

  ghost predicate RecordKeys(w: World, records: seq<(Key, Bytes)>) {
    forall i :: 0 <= i < |records| ==> IsData(w.at, records[i].0) && records[i].0 != CscKey(w.at)
  }

  /** Agreeing records written on top leave stored records in place. */
  lemma PutsKeepStored(store: Store, mine: seq<(Key, Bytes)>, theirs: seq<(Key, Bytes)>)
    requires Stored(store, mine) && Agree(mine, theirs)
    requires forall i, j :: 0 <= i < j < |theirs| ==> theirs[i].0 != theirs[j].0
    ensures Stored(ApplyOps(store, Puts(theirs)), mine) && Stored(ApplyOps(store, Puts(theirs)), theirs)
  {
    PutsEffect(store, theirs);
    hide ApplyOps;
    hide Puts;
    var t := ApplyOps(store, Puts(theirs));
    forall i | 0 <= i < |mine| ensures mine[i].0 in t && t[mine[i].0] == mine[i].1 {
      if j :| 0 <= j < |theirs| && theirs[j].0 == mine[i].0 {
        assert t[theirs[j].0] == theirs[j].1;
      }
    }
  }

  /** Every step other than an effective delete keeps stored records, provided a
      writing step agrees with them. */
  lemma StoredStep(w: World, s: State, st: Step, records: seq<(Key, Bytes)>)
    requires ValidWorld(w) && Enabled(w, s, st) && RecordKeys(w, records) && Stored(s.store, records)
    requires st.PutRecords? ==> Agree(records, w.plans[st.actor].records)
    requires st.DeleteBatch? ==> !MayDelete(w, s.store, st.actor)
    ensures Stored(Exec(w, s, st).store, records)
  {
    hide Exec, Enabled, Stored, RecordKeys;
    if st.PutRecords? {
      StoredAfterPut(w, s, st, records);
    } else {
      StoredAfterOther(w, s, st, records);
    }
  }

  lemma StoredAfterPut(w: World, s: State, st: Step, records: seq<(Key, Bytes)>)
    requires ValidWorld(w) && Enabled(w, s, st) && st.PutRecords? && Stored(s.store, records)
    requires Agree(records, w.plans[st.actor].records)
    ensures Stored(Exec(w, s, st).store, records)
  {
    hide ApplyOps, Puts, Stored;
    var i := s.phase[st.actor].done;
    SliceOfPlan(w, st.actor, i, st.count, records);
    PutsKeepStored(s.store, records, w.plans[st.actor].records[i..i + st.count]);
  }

  lemma StoredAfterOther(w: World, s: State, st: Step, records: seq<(Key, Bytes)>)
    requires Enabled(w, s, st) && RecordKeys(w, records) && Stored(s.store, records)
    requires !st.PutRecords? && (st.DeleteBatch? ==> !MayDelete(w, s.store, st.actor))
    ensures Stored(Exec(w, s, st).store, records)
  {
    hide ManifestKey, MarkerKey, CscKey, DropMarker, WriteClaim, WriteManifest, WriteDeletes;
    assert st.DeleteBatch? ==> s.store - Elems<Key>([]) == s.store;
  }

  lemma SliceOfPlan(w: World, b: nat, i: nat, n: nat, records: seq<(Key, Bytes)>)
    requires ValidWorld(w) && b in w.plans && i + n <= |w.plans[b].records| && Agree(records, w.plans[b].records)
    ensures var r := w.plans[b].records[i..i + n];
            Agree(records, r) && forall x, y :: 0 <= x < y < |r| ==> r[x].0 != r[y].0
  {
    assert ValidPlan(w.at, w.plans[b]);
    var all, r := w.plans[b].records, w.plans[b].records[i..i + n];
    assert forall x :: 0 <= x < |r| ==> r[x] == all[i + x];
  }

  /** While a builder writes, no cleaner of the same process can delete. */
  lemma NoDeleteWhileWriting(w: World, s: State, b: nat, c: nat)
    requires ValidWorld(w) && GuardShared(w) && GuardsOwned(w, s)
    requires b in w.plans && b in s.phase && s.phase[b].Writing?
    requires c in w.tokens && c in s.phase
    ensures !s.phase[c].Claimed?
  {
    assert Holding(s.phase[b]);
  }

  lemma PlanKeys(w: World, b: nat, n: nat)
    requires ValidWorld(w) && b in w.plans && n <= |w.plans[b].records|
    ensures RecordKeys(w, w.plans[b].records[..n]) && RecordKeys(w, w.plans[b].records)
    ensures w.plans[b].records[..|w.plans[b].records|] == w.plans[b].records
    ensures forall q :: Agree(w.plans[b].records, q) ==> Agree(w.plans[b].records[..n], q)
  {
    assert ValidPlan(w.at, w.plans[b]);
  }

  lemma WritingAfter(w: World, s: State, st: Step, b: nat)
    requires Enabled(w, s, st) && b in s.phase && b in w.plans
    requires Exec(w, s, st).phase[b].Writing?
    ensures var q := Exec(w, s, st).phase[b].done;
            || (s.phase[b].Writing? && s.phase[b].done == q)
            || (st.Prepare? && q == 0)
            || (st.PutRecords? && st.actor == b && s.phase[b].Writing?
                && q == s.phase[b].done + st.count <= |w.plans[b].records|)
  {
    hide ManifestKey;
    hide MarkerKey;
    hide CscKey;
    hide ApplyOps;
    hide Puts;
    hide DropMarker;
    hide WriteClaim;
    hide WriteManifest;
    hide WriteDeletes;
  }

  lemma StoredJoin(t: Store, all: seq<(Key, Bytes)>, i: nat, n: nat)
    requires i + n <= |all| && Stored(t, all[..i]) && Stored(t, all[i..i + n])
    ensures Stored(t, all[..i + n])
  {
    var upto := all[..i + n];
    forall x | 0 <= x < |upto| ensures upto[x].0 in t && t[upto[x].0] == upto[x].1 {
      if x < i {
        assert upto[x].0 == all[..i][x].0 && upto[x].1 == all[..i][x].1;
      } else {
        assert upto[x].0 == all[i..i + n][x - i].0 && upto[x].1 == all[i..i + n][x - i].1;
      }
    }
  }

  lemma OwnSlices(w: World, b: nat, i: nat, n: nat)
    requires ValidWorld(w) && b in w.plans && i + n <= |w.plans[b].records|
    ensures var all := w.plans[b].records; var r := all[i..i + n];
            Agree(all[..i], r) && forall x, y :: 0 <= x < y < |r| ==> r[x].0 != r[y].0
  {
    assert ValidPlan(w.at, w.plans[b]);
    var all, r := w.plans[b].records, w.plans[b].records[i..i + n];
    assert forall x :: 0 <= x < |r| ==> r[x] == all[i + x];
  }

  lemma OwnPut(w: World, s: State, st: Step, b: nat)
    requires ValidWorld(w) && Enabled(w, s, st) && st.PutRecords? && st.actor == b
    requires Stored(s.store, w.plans[b].records[..s.phase[b].done])
    ensures var t, q := Exec(w, s, st), s.phase[b].done + st.count;
            t.phase[b] == Writing(q) && q <= |w.plans[b].records| && Stored(t.store, w.plans[b].records[..q])
  {
    hide ApplyOps;
    hide Puts;
    hide Stored;
    hide ValidWorld;
    var all, i, n := w.plans[b].records, s.phase[b].done, st.count;
    OwnSlices(w, b, i, n);
    PutsKeepStored(s.store, all[..i], all[i..i + n]);
    StoredJoin(ApplyOps(s.store, Puts(all[i..i + n])), all, i, n);
  }

  lemma WritesStep(w: World, s: State, st: Step)
    requires ValidWorld(w) && GuardShared(w) && Enabled(w, s, st) && GuardsOwned(w, s) && WritesKept(w, s)
    requires PutsAgree(w, s, st)
    ensures WritesKept(w, Exec(w, s, st))
  {
    hide Exec;
    hide Enabled;
    hide Stored;
    hide GuardsOwned;
    var t := Exec(w, s, st);
    PhaseEffect(w, s, st);
    forall b | b in w.plans && b in t.phase && t.phase[b].Writing?
      ensures t.phase[b].done <= |w.plans[b].records| && Stored(t.store, w.plans[b].records[..t.phase[b].done])
    {
      WritingAfter(w, s, st, b);
      if st.PutRecords? && st.actor == b {
        StepWrites(w, s, st);
        OwnPut(w, s, st, b);
      } else if s.phase[b].Writing? && s.phase[b].done == t.phase[b].done {
        PlanKeys(w, b, s.phase[b].done);
        StepActor(w, s, st);
        if st.DeleteBatch? { NoDeleteWhileWriting(w, s, b, st.actor); }
        StoredStep(w, s, st, w.plans[b].records[..s.phase[b].done]);
      } else {
        StoredNone(t.store);
        assert w.plans[b].records[..0] == [];
      }
    }
  }

  lemma StepWrites(w: World, s: State, st: Step)
    requires Enabled(w, s, st) && st.PutRecords?
    ensures st.actor in w.plans && s.phase[st.actor].Writing?
  {
  }

  lemma StoredNone(store: Store)
    ensures Stored(store, [])
  {
  }

  lemma StepActor(w: World, s: State, st: Step)
    requires Enabled(w, s, st)
    ensures st.PutRecords? ==> st.actor in w.plans
    ensures st.DeleteBatch? ==> st.actor in w.tokens && st.actor in s.phase && s.phase[st.actor].Claimed?
    ensures st.Publish? ==>
              && st.actor in w.plans && st.actor in s.phase
              && s.phase[st.actor] == Writing(|w.plans[st.actor].records|)
  {
  }

  /** A publication finds all its records stored. */
  lemma PublishCompletes(w: World, s: State, st: Step)
    requires ValidWorld(w) && Enabled(w, s, st) && WritesKept(w, s) && st.Publish?
    ensures st.actor in w.plans && Stored(Exec(w, s, st).store, w.plans[st.actor].records)
  {
    hide Exec;
    hide Enabled;
    hide Stored;
    StepActor(w, s, st);
    PlanKeys(w, st.actor, |w.plans[st.actor].records|);
    StoredStep(w, s, st, w.plans[st.actor].records);
  }

  lemma CompleteStep(w: World, s: State, st: Step)
    requires ValidWorld(w) && Enabled(w, s, st) && Inv(w, s) && WritesKept(w, s) && Complete(w, s)
    requires PutsFit(w, s, st)
    ensures Complete(w, Exec(w, s, st))
  {
    hide Exec;
    hide Enabled;
    hide Stored;
    hide GuardsOwned;
    hide TokensClaimed;
    hide ManifestKey;
    hide MarkerKey;
    var t := Exec(w, s, st);
    ManifestEffect(w, s, st);
    StepActor(w, s, st);
    if t.publisher.Some? {
      var b := t.publisher.value;
      if st.Publish? && b == st.actor {
        PublishCompletes(w, s, st);
      } else {
        PlanKeys(w, b, 0);
        PlanKeys(w, b, |w.plans[b].records|);
        StoredStep(w, s, st, w.plans[b].records);
      }
    }
  }

  lemma SerialisedPuts(w: World, s: State, st: Step)
    requires ValidWorld(w) && Serialised(w)
    ensures GuardShared(w) && PutsAgree(w, s, st) && PutsFit(w, s, st)
  {
    hide Agree;
  }

  lemma {:induction false} RunComplete(w: World, states: seq<State>, steps: seq<Step>, i: nat)
    requires ValidWorld(w) && Serialised(w) && IsRun(w, states, steps) && i <= |steps|
    ensures WritesKept(w, states[i]) && Complete(w, states[i])
  {
    hide Exec;
    hide Enabled;
    hide ValidWorld;
    hide Serialised;
    if i == 0 {
    } else {
      hide Fresh;
      hide WritesKept;
      hide Complete;
      RunComplete(w, states, steps, i - 1);
      RunInv(w, states, steps, i - 1);
      InvParts(w, states[i - 1]);
      SerialisedPuts(w, states[i - 1], steps[i - 1]);
      WritesStep(w, states[i - 1], steps[i - 1]);
      CompleteStep(w, states[i - 1], steps[i - 1]);
    }
  }

  // The condition is also necessary: without it some run publishes a manifest
  // over missing or foreign records.

  ghost function Follow(w: World, s: State, steps: seq<Step>): Option<State>
    decreases |steps|
  {
    if steps == [] then Some(s)
    else if Enabled(w, s, steps[0]) then Follow(w, Exec(w, s, steps[0]), steps[1..])
    else None
  }

  ghost function StatesOf(w: World, s: State, steps: seq<Step>): (r: seq<State>)
    requires Follow(w, s, steps).Some?
    ensures |r| == |steps| + 1 && r[0] == s && r[|steps|] == Follow(w, s, steps).value
    ensures forall i :: 0 <= i < |steps| ==> Enabled(w, r[i], steps[i]) && r[i + 1] == Exec(w, r[i], steps[i])
    decreases |steps|
  {
    hide Exec;
    hide Enabled;
    if steps == [] then [s]
    else
      var rest := StatesOf(w, Exec(w, s, steps[0]), steps[1..]);
      [s] + rest
  }

  lemma FollowIsRun(w: World, s: State, steps: seq<Step>)
    requires Fresh(w, s) && Follow(w, s, steps).Some?
    ensures IsRun(w, StatesOf(w, s, steps), steps)
    ensures AlwaysComplete(w) ==> Complete(w, Follow(w, s, steps).value)
  {
    hide Fresh;
    hide Exec;
    hide Enabled;
    hide Complete;
    var states := StatesOf(w, s, steps);
    assert IsRun(w, states, steps);
  }

  lemma {:induction false} FollowConcat(w: World, s: State, a: seq<Step>, b: seq<Step>)
    requires Follow(w, s, a).Some?
    ensures Follow(w, s, a + b) == Follow(w, Follow(w, s, a).value, b)
    decreases |a|
  {
    hide Exec;
    hide Enabled;
    if a == [] {
      assert a + b == b;
    } else {
      FollowConcat(w, Exec(w, s, a[0]), a[1..], b);
      assert (a + b)[1..] == a[1..] + b;
    }
  }

  lemma FollowOne(w: World, s: State, st: Step)
    requires Enabled(w, s, st)
    ensures Follow(w, s, [st]) == Some(Exec(w, s, st))
  {
    hide Exec;
    hide Enabled;
    assert [st][1..] == [];
    assert Follow(w, Exec(w, s, st), []) == Some(Exec(w, s, st));
  }

  lemma FollowThen(w: World, s: State, a: seq<Step>, st: Step)
    requires Follow(w, s, a).Some? && Enabled(w, Follow(w, s, a).value, st)
    ensures Follow(w, s, a + [st]) == Some(Exec(w, Follow(w, s, a).value, st))
  {
    FollowConcat(w, s, a, [st]);
    FollowOne(w, Follow(w, s, a).value, st);
  }

  ghost function EmptyState(w: World): State {
    State(map[], map a | a in w.proc :: Idle, map[], None)
  }

  function BuildSteps(w: World, b: nat): seq<Step>
    requires b in w.plans
  {
    [Acquire(b)] + [ReadMarker(b)] + [Prepare(b)] + [PutRecords(b, |w.plans[b].records|)]
  }

  /** An undisturbed build up to its last record. */
  lemma BuilderAcquires(w: World, s: State, b: nat)
    requires ValidWorld(w) && b in w.plans && b in s.phase && s.phase[b] == Idle && w.proc[b] !in s.locks
    ensures Enabled(w, s, Acquire(b))
    ensures Exec(w, s, Acquire(b)) == State(s.store, s.phase[b := Locked], s.locks[w.proc[b] := b], s.publisher)
  {
    hide ValidPlan;
  }

  lemma SeesNoMarker(w: World, s: State, b: nat)
    requires b in s.phase && b in w.proc && s.phase[b] == Locked && MarkerKey(w.at) !in s.store
    ensures Enabled(w, s, ReadMarker(b))
    ensures Exec(w, s, ReadMarker(b)) == State(s.store, s.phase[b := Saw(None)], s.locks, s.publisher)
  {
    hide MarkerKey;
  }

  lemma NothingToDrop(w: World, s: State, b: nat)
    requires b in s.phase && b in w.proc && s.phase[b] == Saw(None)
    ensures Enabled(w, s, Prepare(b))
    ensures Exec(w, s, Prepare(b)) == State(s.store, s.phase[b := Writing(0)], s.locks, s.publisher)
  {
  }

  lemma PutsEverything(w: World, s: State, b: nat)
    requires ValidWorld(w) && b in s.phase && b in w.proc && b in w.plans && s.phase[b] == Writing(0)
    ensures Enabled(w, s, PutRecords(b, |w.plans[b].records|))
    ensures Exec(w, s, PutRecords(b, |w.plans[b].records|)) ==
            State(ApplyOps(s.store, Puts(w.plans[b].records)), s.phase[b := Writing(|w.plans[b].records|)], s.locks,
                s.publisher)
  {
    hide ApplyOps, Puts;
    var n := |w.plans[b].records|;
    assert ValidPlan(w.at, w.plans[b]);
    assert w.plans[b].records[0..0 + n] == w.plans[b].records;
  }

  lemma BuildUp(w: World, s: State, b: nat)
    requires ValidWorld(w) && b in w.plans && b in s.phase && s.phase[b] == Idle && w.proc[b] !in s.locks
    requires MarkerKey(w.at) !in s.store
    ensures Follow(w, s, BuildSteps(w, b)) == Some(
              State(ApplyOps(s.store, Puts(w.plans[b].records)), s.phase[b := Writing(|w.plans[b].records|)],
                    s.locks[w.proc[b] := b], s.publisher))
  {
    hide Follow, Exec, Enabled, ApplyOps, Puts, MarkerKey, ValidPlan;
    var n := |w.plans[b].records|;
    BuilderAcquires(w, s, b);
    var s1 := Exec(w, s, Acquire(b));
    FollowOne(w, s, Acquire(b));
    SeesNoMarker(w, s1, b);
    var s2 := Exec(w, s1, ReadMarker(b));
    FollowThen(w, s, [Acquire(b)], ReadMarker(b));
    NothingToDrop(w, s2, b);
    var s3 := Exec(w, s2, Prepare(b));
    FollowThen(w, s, [Acquire(b)] + [ReadMarker(b)], Prepare(b));
    PutsEverything(w, s3, b);
    FollowThen(w, s, [Acquire(b)] + [ReadMarker(b)] + [Prepare(b)], PutRecords(b, n));
    assert s3.phase[b := Writing(n)] == s.phase[b := Writing(n)];
  }

  function ClaimSteps(c: nat): seq<Step> {
    [ReadManifest(c)] + [Acquire(c)] + [Recheck(c)] + [Claim(c)]
  }

  lemma CleanerReads(w: World, s: State, c: nat)
    requires ValidWorld(w) && c in w.tokens && c in s.phase && s.phase[c] == Idle && ManifestKey(w.at) !in s.store
    ensures Enabled(w, s, ReadManifest(c)) && c in w.proc && c !in w.plans
    ensures Exec(w, s, ReadManifest(c)) == State(s.store, s.phase[c := Reading], s.locks, s.publisher)
  {
    hide ManifestKey, ValidPlan;
  }

  lemma CleanerAcquires(w: World, s: State, c: nat)
    requires c in w.proc && c !in w.plans && c in s.phase && s.phase[c] == Reading && w.proc[c] !in s.locks
    ensures Enabled(w, s, Acquire(c))
    ensures Exec(w, s, Acquire(c)) == State(s.store, s.phase[c := Guarded], s.locks[w.proc[c] := c], s.publisher)
  {
  }

  lemma CleanerRechecks(w: World, s: State, c: nat)
    requires c in w.proc && c in s.phase && s.phase[c] == Guarded && ManifestKey(w.at) !in s.store
    ensures Enabled(w, s, Recheck(c))
    ensures Exec(w, s, Recheck(c)) == State(s.store, s.phase[c := Checked], s.locks, s.publisher)
  {
    hide ManifestKey;
  }

  lemma CleanerClaims(w: World, s: State, c: nat)
    requires c in w.proc && c in w.tokens && c in s.phase && s.phase[c] == Checked && ManifestKey(w.at) !in s.store
    ensures Enabled(w, s, Claim(c))
    ensures Exec(w, s, Claim(c))
              == State(s.store[MarkerKey(w.at) := w.tokens[c]], s.phase[c := Claimed], s.locks, s.publisher)
  {
    hide ManifestKey, MarkerKey;
  }

  lemma ClaimUp(w: World, s: State, c: nat)
    requires ValidWorld(w) && c in w.tokens && c in s.phase && s.phase[c] == Idle && w.proc[c] !in s.locks
    requires ManifestKey(w.at) !in s.store
    ensures Follow(w, s, ClaimSteps(c)) == Some(
              State(s.store[MarkerKey(w.at) := w.tokens[c]], s.phase[c := Claimed], s.locks[w.proc[c] := c],
                  s.publisher))
  {
    hide Follow, Exec, Enabled, ManifestKey, MarkerKey;
    CleanerReads(w, s, c);
    hide ValidWorld;
    var s1 := Exec(w, s, ReadManifest(c));
    FollowOne(w, s, ReadManifest(c));
    CleanerAcquires(w, s1, c);
    var s2 := Exec(w, s1, Acquire(c));
    FollowThen(w, s, [ReadManifest(c)], Acquire(c));
    CleanerRechecks(w, s2, c);
    var s3 := Exec(w, s2, Recheck(c));
    FollowThen(w, s, [ReadManifest(c)] + [Acquire(c)], Recheck(c));
    CleanerClaims(w, s3, c);
    FollowThen(w, s, [ReadManifest(c)] + [Acquire(c)] + [Recheck(c)], Claim(c));
    assert s3.phase[c := Claimed] == s.phase[c := Claimed];
  }

  /** A claimed run deletes one key and releases its marker. */
  lemma SweepUp(w: World, s: State, c: nat, key: Key)
    requires ValidWorld(w) && c in w.tokens && c in s.phase && s.phase[c] == Claimed
    requires MayDelete(w, s.store, c) && IsData(w.at, key)
    ensures Follow(w, s, [DeleteBatch(c, [key])] + [Release(c)]) == Some(
              State(s.store - {key} - {MarkerKey(w.at)}, s.phase[c := Finished], s.locks - {w.proc[c]}, s.publisher))
  {
    hide Follow;
    hide ManifestKey;
    hide MarkerKey;
    hide CscKey;
    hide DropMarker;
    hide WriteClaim;
    hide WriteManifest;
    hide WriteDeletes;
    hide ApplyOps;
    hide Puts;
    hide ValidPlan;
    assert Elems([key]) == {key};
    var s1 := Exec(w, s, DeleteBatch(c, [key]));
    FollowOne(w, s, DeleteBatch(c, [key]));
    assert s1 == s.(store := s.store - {key});
    FollowThen(w, s, [DeleteBatch(c, [key])], Release(c));
  }

  /** An undisturbed cleanup run that deletes one key. */
  lemma CleanUp(w: World, s: State, c: nat, key: Key)
    requires ValidWorld(w) && c in w.tokens && c in s.phase && s.phase[c] == Idle && w.proc[c] !in s.locks
    requires MarkerKey(w.at) !in s.store && ManifestKey(w.at) !in s.store && IsData(w.at, key)
    ensures Follow(w, s, ClaimSteps(c) + ([DeleteBatch(c, [key])] + [Release(c)]))
         == Some(State(s.store - {key}, s.phase[c := Finished], s.locks, s.publisher))
  {
    hide Follow;
    hide ManifestKey;
    hide MarkerKey;
    hide ValidPlan;
    hide CscKey;
    hide ClaimSteps;
    KeysApart(w);
    ClaimUp(w, s, c);
    var t := Follow(w, s, ClaimSteps(c)).value;
    SweepUp(w, t, c, key);
    FollowConcat(w, s, ClaimSteps(c), [DeleteBatch(c, [key])] + [Release(c)]);
    PutBack(s.store, MarkerKey(w.at), w.tokens[c], key);
    PutBack(s.locks, w.proc[c], c, w.proc[c]);
    assert t.phase[c := Finished] == s.phase[c := Finished];
  }

  lemma PutBack<K, V>(m: map<K, V>, k: K, v: V, gone: K)
    requires k !in m
    ensures m[k := v] - {gone} - {k} == m - {gone} && m[k := v] - {k} == m
  {
  }

  lemma PublishUp(w: World, s: State, b: nat)
    requires b in w.plans && b in w.proc && b in s.phase && s.phase[b] == Writing(|w.plans[b].records|)
    requires MarkerKey(w.at) !in s.store
    ensures Follow(w, s, [Publish(b)]) == Some(
              State(s.store[ManifestKey(w.at) := w.plans[b].manifest][CscKey(w.at) := w.plans[b].csc],
                    s.phase[b := Finished], s.locks - {w.proc[b]}, Some(b)))
  {
    hide ManifestKey;
    hide MarkerKey;
    hide CscKey;
    hide WriteManifest;
    hide Follow;
    FollowOne(w, s, Publish(b));
  }

  lemma EmptyIsFresh(w: World)
    requires ValidWorld(w)
    ensures Fresh(w, EmptyState(w))
  {
  }

  // Nothing that earlier runs left behind keeps a build from publishing.

  lemma SeesMarker(w: World, s: State, b: nat)
    requires b in s.phase && b in w.proc && s.phase[b] == Locked
    ensures Enabled(w, s, ReadMarker(b))
    ensures Exec(w, s, ReadMarker(b)) == State(s.store, s.phase[b := Saw(Mark(w, s))], s.locks, s.publisher)
  {
    hide MarkerKey;
  }

  lemma DropsMarker(w: World, s: State, b: nat)
    requires b in s.phase && b in w.proc && s.phase[b] == Saw(Mark(w, s))
    ensures Enabled(w, s, Prepare(b))
    ensures Exec(w, s, Prepare(b)) == State(s.store - {MarkerKey(w.at)}, s.phase[b := Writing(0)], s.locks, s.publisher)
  {
    hide MarkerKey, DropMarker;
    assert MarkerKey(w.at) !in s.store ==> s.store - {MarkerKey(w.at)} == s.store;
  }

  lemma PutsThenPublishes(w: World, store: Store, b: nat)
    requires ValidWorld(w) && b in w.plans && MarkerKey(w.at) !in store
    ensures var t := ApplyOps(store, Puts(w.plans[b].records));
            var u := t[ManifestKey(w.at) := w.plans[b].manifest][CscKey(w.at) := w.plans[b].csc];
            MarkerKey(w.at) !in t && Stored(u, w.plans[b].records)
  {
    hide ManifestKey, MarkerKey, CscKey, ApplyOps, Puts;
    KeysApart(w);
    var p := w.plans[b].records;
    assert ValidPlan(w.at, w.plans[b]);
    PutsKeepOthers(w, b, store, 0, |p|);
    assert p[0..0 + |p|] == p;
    PutsEffect(store, p);
  }

  /** From every state of the protocol, with whatever records and whatever marker
      a crashed run left behind, a build that finds its guard free and is left
      alone publishes, with all its records stored. */
  lemma BuildAlwaysPublishes(w: World, s: State, b: nat)
    requires ValidWorld(w) && b in w.plans && b in w.proc && b in s.phase && s.phase[b] == Idle
    requires w.proc[b] !in s.locks
    ensures Follow(w, s, BuildSteps(w, b) + [Publish(b)]).Some?
    ensures var t := Follow(w, s, BuildSteps(w, b) + [Publish(b)]).value;
            t.publisher == Some(b) && ManifestKey(w.at) in t.store && Stored(t.store, w.plans[b].records)
            && t.store[ManifestKey(w.at)] == w.plans[b].manifest
  {
    KeysApart(w);
    hide Follow, Exec, Enabled, ApplyOps, Puts, MarkerKey, ManifestKey, CscKey, ValidPlan, Stored, Mark;
    var n, clean := |w.plans[b].records|, s.store - {MarkerKey(w.at)};
    BuilderAcquires(w, s, b);
    var s1 := Exec(w, s, Acquire(b));
    FollowOne(w, s, Acquire(b));
    SeesMarker(w, s1, b);
    var s2 := Exec(w, s1, ReadMarker(b));
    FollowThen(w, s, [Acquire(b)], ReadMarker(b));
    SameMark(w, s1, s2);
    DropsMarker(w, s2, b);
    var s3 := Exec(w, s2, Prepare(b));
    FollowThen(w, s, [Acquire(b)] + [ReadMarker(b)], Prepare(b));
    PutsEverything(w, s3, b);
    var s4 := Exec(w, s3, PutRecords(b, n));
    FollowThen(w, s, [Acquire(b)] + [ReadMarker(b)] + [Prepare(b)], PutRecords(b, n));
    PutsThenPublishes(w, clean, b);
    PublishUp(w, s4, b);
    FollowConcat(w, s, BuildSteps(w, b), [Publish(b)]);
  }

  lemma SameMark(w: World, s: State, t: State)
    requires s.store == t.store
    ensures Mark(w, s) == Mark(w, t)
  {
  }

  /** A build whose first record a cleaner deletes just before the publication. */
  function UnguardedSteps(w: World, b: nat, c: nat): seq<Step>
    requires b in w.plans && w.plans[b].records != []
  {
    BuildSteps(w, b) + (ClaimSteps(c) + ([DeleteBatch(c, [w.plans[b].records[0].0])] + [Release(c)])) + [Publish(b)]
  }

  /** A cleaner in another process does so, and the publication still succeeds. */
  lemma UnguardedRun(w: World, b: nat, c: nat)
    requires ValidWorld(w) && b in w.plans && c in w.tokens && w.proc[b] != w.proc[c] && w.plans[b].records != []
    ensures Follow(w, EmptyState(w), UnguardedSteps(w, b, c)).Some?
    ensures var s := Follow(w, EmptyState(w), UnguardedSteps(w, b, c)).value;
            && s.publisher == Some(b) && w.plans[b].records[0].0 !in s.store && ManifestKey(w.at) in s.store
            && CscKey(w.at) in s.store && s.store[CscKey(w.at)] == w.plans[b].csc
  {
    hide Follow, ManifestKey, MarkerKey, CscKey, ApplyOps, Puts, BuildSteps, ClaimSteps;
    var s0 := EmptyState(w);
    BuildUp(w, s0, b);
    var records := w.plans[b].records;
    assert ValidPlan(w.at, w.plans[b]);
    var s1 := Follow(w, s0, BuildSteps(w, b)).value;
    PutsKeepOthers(w, b, map[], 0, |records|);
    assert records[0..0 + |records|] == records;
    var key := records[0].0;
    CleanUp(w, s1, c, key);
    var clean := ClaimSteps(c) + ([DeleteBatch(c, [key])] + [Release(c)]);
    FollowConcat(w, s0, BuildSteps(w, b), clean);
    var s2 := Follow(w, s1, clean).value;
    PublishUp(w, s2, b);
    FollowConcat(w, s0, BuildSteps(w, b) + clean, [Publish(b)]);
    KeysApart(w);
  }

  /** So a cleaner in another process breaks a published artifact. */
  lemma UnguardedCleanerBreaks(w: World, b: nat, c: nat)
    requires ValidWorld(w) && b in w.plans && c in w.tokens && w.proc[b] != w.proc[c]
    ensures !AlwaysComplete(w)
  {
    assert ValidPlan(w.at, w.plans[b]);
    hide Follow, ManifestKey, MarkerKey, CscKey, AlwaysComplete, Fresh, EmptyState, UnguardedSteps, ValidWorld;
    UnguardedRun(w, b, c);
    EmptyIsFresh(w);
    FollowIsRun(w, EmptyState(w), UnguardedSteps(w, b, c));
  }

  /** Published by `b`, with all its records and nobody else begun. */
  ghost predicate Built(w: World, s: State, b: nat) {
    && b in w.plans && s.publisher == Some(b) && s.locks == map[] && MarkerKey(w.at) !in s.store
    && s.phase.Keys == w.proc.Keys && (forall d :: d in w.plans && d in w.proc && d != b ==> s.phase[d] == Idle)
    && ManifestKey(w.at) in s.store && CscKey(w.at) in s.store && s.store[CscKey(w.at)] == w.plans[b].csc
    && Stored(s.store, w.plans[b].records)
  }

  /** An undisturbed build on an empty store, up to its publication. */
  lemma PublishedBuild(w: World, b: nat)
    requires ValidWorld(w) && b in w.plans
    ensures Follow(w, EmptyState(w), BuildSteps(w, b) + [Publish(b)]).Some?
    ensures Built(w, Follow(w, EmptyState(w), BuildSteps(w, b) + [Publish(b)]).value, b)
    ensures var s := Follow(w, EmptyState(w), BuildSteps(w, b));
            s.Some? && MarkerKey(w.at) !in s.value.store && Enabled(w, s.value, Publish(b))
            && Follow(w, EmptyState(w), BuildSteps(w, b) + [Publish(b)]) == Some(Exec(w, s.value, Publish(b)))
  {
    hide Follow, ManifestKey, MarkerKey, CscKey, ApplyOps, Puts, BuildSteps, Stored, Exec, Enabled, ValidPlan;
    var s0 := EmptyState(w);
    BuildUp(w, s0, b);
    var s1 := Follow(w, s0, BuildSteps(w, b)).value;
    PublishedStore(w, b);
    PublishUp(w, s1, b);
    CanPublish(w, s1, b);
    FollowThen(w, s0, BuildSteps(w, b), Publish(b));
    FollowOne(w, s1, Publish(b));
    assert s1.locks - {w.proc[b]} == map[];
  }

  lemma CanPublish(w: World, s: State, b: nat)
    requires b in w.plans && b in w.proc && b in s.phase && s.phase[b] == Writing(|w.plans[b].records|)
    ensures Enabled(w, s, Publish(b))
  {
  }

  lemma PublishedStore(w: World, b: nat)
    requires ValidWorld(w) && b in w.plans
    ensures var t := ApplyOps(map[], Puts(w.plans[b].records));
            var u := t[ManifestKey(w.at) := w.plans[b].manifest][CscKey(w.at) := w.plans[b].csc];
            MarkerKey(w.at) !in t && MarkerKey(w.at) !in u && Stored(u, w.plans[b].records)
  {
    hide ManifestKey, MarkerKey, CscKey, ApplyOps, Puts;
    KeysApart(w);
    var p := w.plans[b].records;
    assert ValidPlan(w.at, w.plans[b]);
    PutsKeepOthers(w, b, map[], 0, |p|);
    assert p[0..0 + |p|] == p;
    PutsEffect(map[], p);
  }

  /** A second build of a published epoch overwrites a record with a different
      value; the published manifest no longer describes it. */
  lemma DisagreeingRebuildBreaks(w: World, b: nat, d: nat)
    requires ValidWorld(w) && b in w.plans && d in w.plans && !Agree(w.plans[b].records, w.plans[d].records)
    ensures !AlwaysComplete(w)
  {
    hide Follow;
    hide ManifestKey;
    hide MarkerKey;
    hide CscKey;
    hide ApplyOps;
    hide Puts;
    hide AlwaysComplete;
    hide Fresh;
    hide BuildSteps;
    hide EmptyState;
    assert ValidPlan(w.at, w.plans[b]) && ValidPlan(w.at, w.plans[d]);
    var p, q := w.plans[b].records, w.plans[d].records;
    var i, j :| 0 <= i < |p| && 0 <= j < |q| && p[i].0 == q[j].0 && p[i].1 != q[j].1;
    assert b != d;
    EmptyIsFresh(w);
    PublishedBuild(w, b);
    var s0 := EmptyState(w);
    var s2 := Follow(w, s0, BuildSteps(w, b) + [Publish(b)]).value;
    BuildUp(w, s2, d);
    FollowConcat(w, s0, BuildSteps(w, b) + [Publish(b)], BuildSteps(w, d));
    FollowIsRun(w, s0, BuildSteps(w, b) + [Publish(b)] + BuildSteps(w, d));
    PutsEffect(s2.store, q);
    hide ValidWorld;
    var s3 := Follow(w, s2, BuildSteps(w, d)).value;
    assert s3.store[q[j].0] == q[j].1;
    assert !Stored(s3.store, p);
  }

  /** Published manifests are complete in every run if and only if every cleaner
      shares the artifact guard with every builder and the builds agree. */
  lemma CompleteExactly(w: World)
    requires ValidWorld(w)
    ensures AlwaysComplete(w) <==> Serialised(w)
  {
    hide Agree;
    hide Complete;
    hide ValidPlan;
    hide Exec;
    hide Enabled;
    hide Fresh;
    if Serialised(w) {
      forall states, steps | IsRun(w, states, steps) ensures Complete(w, states[|steps|]) {
        RunComplete(w, states, steps, |steps|);
      }
    }
    if b, c :| b in w.plans && c in w.tokens && w.proc[b] != w.proc[c] {
      UnguardedCleanerBreaks(w, b, c);
    }
    if b, d :| b in w.plans && d in w.plans && !Agree(w.plans[b].records, w.plans[d].records) {
      DisagreeingRebuildBreaks(w, b, d);
    }
  }
}
