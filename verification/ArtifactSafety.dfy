/** Safety of the publish/cleanup protocol over every interleaving. */
module ArtifactSafety {
  import opened Basics
  import opened Binary
  import opened WriteBatch
  import opened CscArtifact
  import opened ArtifactProtocol

  // Invariants.

  ghost predicate Exclusive(w: World, s: State) {
    ManifestKey(w.at) in s.store ==> MarkerKey(w.at) !in s.store
  }

  predicate PostClaim(p: Phase) { p.Claimed? || p.Stopping? || p.Finished? }

  /** A token is in the marker only after its run claimed. */
  ghost predicate TokensClaimed(w: World, s: State) {
    forall c :: c in w.tokens && MarkerKey(w.at) in s.store && s.store[MarkerKey(w.at)] == w.tokens[c] ==>
      c in s.phase && PostClaim(s.phase[c])
  }

  /** Whoever is inside the protected region owns its process's guard. */
  ghost predicate GuardsOwned(w: World, s: State) {
    forall a :: a in s.phase && a in w.proc && Holding(s.phase[a]) ==>
      w.proc[a] in s.locks && s.locks[w.proc[a]] == a
  }

  ghost predicate PublisherKnown(w: World, s: State) {
    && (s.publisher.Some? <==> ManifestKey(w.at) in s.store)
    && (s.publisher.Some? ==>
          && s.publisher.value in w.plans
          && s.store[ManifestKey(w.at)] == w.plans[s.publisher.value].manifest
          && CscKey(w.at) in s.store && s.store[CscKey(w.at)] == w.plans[s.publisher.value].csc)
  }

  ghost predicate Inv(w: World, s: State) {
    Exclusive(w, s) && TokensClaimed(w, s) && GuardsOwned(w, s) && PublisherKnown(w, s)
  }

  /** Writing records leaves the other keys as they were and removes nothing. */
  lemma PutsKeepOthers(w: World, b: nat, store: Store, i: nat, n: nat)
    requires ValidWorld(w) && b in w.plans && i + n <= |w.plans[b].records|
    ensures var t := ApplyOps(store, Puts(w.plans[b].records[i..i + n]));
            && (forall k :: k in {ManifestKey(w.at), MarkerKey(w.at), CscKey(w.at)} ==>
                  (k in t <==> k in store) && (k in store ==> t[k] == store[k]))
            && (forall k :: k in store ==> k in t)
  {
    hide ApplyOps;
    hide ManifestKey;
    hide MarkerKey;
    hide CscKey;
    hide Puts;
    var all, r := w.plans[b].records, w.plans[b].records[i..i + n];
    assert ValidPlan(w.at, w.plans[b]);
    assert forall j :: 0 <= j < |r| ==> r[j] == all[i + j];
    PutsEffect(store, r);
    forall j | 0 <= j < |r| ensures r[j].0 !in {ManifestKey(w.at), MarkerKey(w.at), CscKey(w.at)} {
      assert IsData(w.at, all[i + j].0);
    }
  }

  lemma KeysApart(w: World)
    requires ValidWorld(w)
    ensures ManifestKey(w.at) != MarkerKey(w.at)
    ensures CscKey(w.at) != ManifestKey(w.at) && CscKey(w.at) != MarkerKey(w.at)
  {
    ArbitersDiffer(w.at);
    CscKeyIsData(w.at);
  }

  lemma PutsKeepArbiters(w: World, s: State, st: Step)
    requires ValidWorld(w) && Enabled(w, s, st)
    ensures st.PutRecords? ==> forall k :: k in {ManifestKey(w.at), MarkerKey(w.at), CscKey(w.at)} ==>
              (k in Exec(w, s, st).store <==> k in s.store) && (k in s.store ==> Exec(w, s, st).store[k] == s.store[k])
    ensures st.PutRecords? ==> forall k :: k in s.store ==> k in Exec(w, s, st).store
  {
    hide ApplyOps;
    hide ManifestKey;
    hide MarkerKey;
    hide CscKey;
    hide Puts;
    hide ValidWorld;
    if st.PutRecords? {
      PutsKeepOthers(w, st.actor, s.store, s.phase[st.actor].done, st.count);
    }
  }

  function Mark(w: World, s: State): Option<Bytes> {
    if MarkerKey(w.at) in s.store then Some(s.store[MarkerKey(w.at)]) else None
  }

  function Published(w: World, s: State): Option<Bytes> {
    if ManifestKey(w.at) in s.store then Some(s.store[ManifestKey(w.at)]) else None
  }

  /** A step leaves the marker, removes it, or claims it while no manifest
      exists. */
  lemma MarkerEffect(w: World, s: State, st: Step)
    requires ValidWorld(w) && Enabled(w, s, st)
    ensures var t := Exec(w, s, st);
            || Mark(w, t) == Mark(w, s)
            || Mark(w, t) == None
            || (st.Claim? && Published(w, s) == None && Mark(w, t) == Some(w.tokens[st.actor])
                && t.phase[st.actor] == Claimed)
  {
    hide ManifestKey;
    hide MarkerKey;
    hide CscKey;
    hide ApplyOps;
    hide Puts;
    hide ValidWorld;
    hide DropMarker;
    hide WriteClaim;
    hide WriteManifest;
    hide WriteDeletes;
    KeysApart(w);
    PutsKeepArbiters(w, s, st);
  }

  /** A step leaves the manifest, or publishes one while no marker stands. */
  lemma ManifestEffect(w: World, s: State, st: Step)
    requires ValidWorld(w) && Enabled(w, s, st)
    ensures var t := Exec(w, s, st);
            || (Published(w, t) == Published(w, s) && t.publisher == s.publisher)
            || (st.Publish? && Mark(w, s) == None && Mark(w, t) == None && t.publisher == Some(st.actor)
                && Published(w, t) == Some(w.plans[st.actor].manifest))
  {
    hide ManifestKey;
    hide MarkerKey;
    hide CscKey;
    hide ApplyOps;
    hide Puts;
    hide ValidWorld;
    hide DropMarker;
    hide WriteClaim;
    hide WriteManifest;
    hide WriteDeletes;
    KeysApart(w);
    PutsKeepArbiters(w, s, st);
  }

  /** A step touches the phase of its own actor only, and never takes a run back
      before its claim. */
  lemma PhaseEffect(w: World, s: State, st: Step)
    requires Enabled(w, s, st)
    ensures var t := Exec(w, s, st);
            && t.phase.Keys == s.phase.Keys
            && (forall a :: a in s.phase && a != st.actor ==> t.phase[a] == s.phase[a])
            && (PostClaim(s.phase[st.actor]) ==> PostClaim(t.phase[st.actor]) && !st.Claim?)
  {
    OthersKeepPhase(w, s, st);
    if PostClaim(s.phase[st.actor]) { ClaimEffect(w, s, st); }
    hide Exec;
  }

  lemma OthersKeepPhase(w: World, s: State, st: Step)
    requires Enabled(w, s, st)
    ensures Exec(w, s, st).phase.Keys == s.phase.Keys
    ensures forall a :: a in s.phase && a != st.actor ==> Exec(w, s, st).phase[a] == s.phase[a]
  {
    hide ManifestKey, MarkerKey, CscKey, ApplyOps, Puts, DropMarker, WriteClaim, WriteManifest, WriteDeletes;
  }

  lemma ClaimEffect(w: World, s: State, st: Step)
    requires Enabled(w, s, st) && PostClaim(s.phase[st.actor])
    ensures st.actor in Exec(w, s, st).phase && PostClaim(Exec(w, s, st).phase[st.actor]) && !st.Claim?
  {
    hide ManifestKey, MarkerKey, CscKey, ApplyOps, Puts, DropMarker, WriteClaim, WriteManifest, WriteDeletes;
  }

  lemma ExclusiveStep(w: World, s: State, st: Step)
    requires ValidWorld(w) && Enabled(w, s, st) && Exclusive(w, s)
    ensures Exclusive(w, Exec(w, s, st))
  {
    MarkerEffect(w, s, st);
    ManifestEffect(w, s, st);
    hide Exec;
    hide Enabled;
    hide ValidWorld;
  }

  lemma TokensStep(w: World, s: State, st: Step)
    requires ValidWorld(w) && Enabled(w, s, st) && TokensClaimed(w, s)
    ensures TokensClaimed(w, Exec(w, s, st))
  {
    MarkerEffect(w, s, st);
    PhaseEffect(w, s, st);
    hide Exec;
    hide ValidPlan;
    hide MarkerKey;
    hide ManifestKey;
  }

  lemma GuardsStep(w: World, s: State, st: Step)
    requires Enabled(w, s, st) && GuardsOwned(w, s)
    ensures GuardsOwned(w, Exec(w, s, st))
  {
    hide ManifestKey;
    hide MarkerKey;
    hide CscKey;
    hide ApplyOps;
    hide Puts;
    hide DropMarker;
    hide WriteClaim;
    hide WriteManifest;
    hide WriteDeletes;
  }

  lemma CscEffect(w: World, s: State, st: Step)
    requires ValidWorld(w) && Enabled(w, s, st) && Exclusive(w, s) && ManifestKey(w.at) in s.store && !st.Publish?
    ensures forall k :: k in s.store ==> k in Exec(w, s, st).store
    ensures CscKey(w.at) in s.store ==> Exec(w, s, st).store[CscKey(w.at)] == s.store[CscKey(w.at)]
  {
    hide ManifestKey;
    hide MarkerKey;
    hide CscKey;
    hide ApplyOps;
    hide Puts;
    hide ValidWorld;
    hide DropMarker;
    hide WriteClaim;
    hide WriteManifest;
    hide WriteDeletes;
    KeysApart(w);
    PutsKeepArbiters(w, s, st);
    assert st.DeleteBatch? ==> s.store - Elems<Key>([]) == s.store;
  }

  lemma PublishEffectOnKeys(w: World, s: State, st: Step)
    requires Enabled(w, s, st) && st.Publish?
    ensures forall k :: k in s.store ==> k in Exec(w, s, st).store
    ensures Exec(w, s, st).publisher != s.publisher || Exec(w, s, st).store != s.store ==>
              CscKey(w.at) in Exec(w, s, st).store && Exec(w, s, st).store[CscKey(w.at)] == w.plans[st.actor].csc
  {
    hide ManifestKey;
    hide MarkerKey;
    hide CscKey;
    hide ApplyOps;
    hide Puts;
    hide ValidWorld;
    hide DropMarker;
    hide WriteClaim;
    hide WriteManifest;
    hide WriteDeletes;
  }

  lemma PublisherStep(w: World, s: State, st: Step)
    requires ValidWorld(w) && Enabled(w, s, st) && PublisherKnown(w, s) && Exclusive(w, s)
    ensures PublisherKnown(w, Exec(w, s, st))
  {
    ManifestEffect(w, s, st);
    if st.Publish? {
      PublishEffectOnKeys(w, s, st);
    } else if ManifestKey(w.at) in s.store {
      CscEffect(w, s, st);
    }
    hide Exec;
    hide MarkerKey;
    hide ManifestKey;
    hide CscKey;
    hide ValidWorld;
  }

  lemma InvStep(w: World, s: State, st: Step)
    requires ValidWorld(w) && Enabled(w, s, st) && Inv(w, s)
    ensures Inv(w, Exec(w, s, st))
  {
    hide *;
    assert Exclusive(w, s) && TokensClaimed(w, s) && GuardsOwned(w, s) && PublisherKnown(w, s) by { InvParts(w, s); }
    ExclusiveStep(w, s, st);
    TokensStep(w, s, st);
    GuardsStep(w, s, st);
    PublisherStep(w, s, st);
    InvWhole(w, Exec(w, s, st));
  }

  lemma InvParts(w: World, s: State)
    requires Inv(w, s)
    ensures Exclusive(w, s) && TokensClaimed(w, s) && GuardsOwned(w, s) && PublisherKnown(w, s)
  {
  }

  lemma InvWhole(w: World, s: State)
    requires Exclusive(w, s) && TokensClaimed(w, s) && GuardsOwned(w, s) && PublisherKnown(w, s)
    ensures Inv(w, s)
  {
  }

  lemma InvFresh(w: World, s: State)
    requires ValidWorld(w) && Fresh(w, s)
    ensures Inv(w, s)
  {
    hide ManifestKey;
    hide MarkerKey;
    hide CscKey;
  }

  // Runs.

  /** A run: states linked by enabled steps, from any fresh state. */
  ghost predicate IsRun(w: World, states: seq<State>, steps: seq<Step>) {
    && |states| == |steps| + 1
    && Fresh(w, states[0])
    && forall i :: 0 <= i < |steps| ==> Enabled(w, states[i], steps[i]) && states[i + 1] == Exec(w, states[i], steps[i])
  }

  lemma {:induction false} RunInv(w: World, states: seq<State>, steps: seq<Step>, i: nat)
    requires ValidWorld(w) && IsRun(w, states, steps) && i <= |steps|
    ensures Inv(w, states[i])
  {
    hide Exec;
    hide Enabled;
    hide Inv;
    hide Fresh;
    hide ValidWorld;
    if i == 0 {
      InvFresh(w, states[0]);
    } else {
      RunInv(w, states, steps, i - 1);
      InvStep(w, states[i - 1], steps[i - 1]);
    }
  }

  /** In every reachable state the manifest and a cleanup marker exclude each
      other, and a published manifest is the publisher's. */
  lemma ManifestExcludesMarker(w: World, states: seq<State>, steps: seq<Step>, i: nat)
    requires ValidWorld(w) && IsRun(w, states, steps) && i <= |steps|
    ensures !(ManifestKey(w.at) in states[i].store && MarkerKey(w.at) in states[i].store)
    ensures PublisherKnown(w, states[i])
  {
    RunInv(w, states, steps, i);
  }

  /** At most one run can delete in any state. */
  lemma AtMostOneDeleter(w: World, store: Store, c: nat, d: nat)
    requires ValidWorld(w) && MayDelete(w, store, c) && MayDelete(w, store, d)
    ensures c == d
  {
  }

  lemma PublishedStep(w: World, s: State, st: Step)
    requires ValidWorld(w) && Enabled(w, s, st) && Inv(w, s) && ManifestKey(w.at) in s.store
    ensures forall k :: k in s.store ==> k in Exec(w, s, st).store
  {
    if st.Publish? { PublishEffectOnKeys(w, s, st); } else { CscEffect(w, s, st); }
  }

  /** Once the manifest exists no key is ever removed again by builders and
      cleaners: no cleanup delete takes effect after publication. */
  lemma {:induction false} NothingDeletedAfterPublish(w: World, states: seq<State>, steps: seq<Step>, i: nat, j: nat)
    requires ValidWorld(w) && IsRun(w, states, steps) && i <= j <= |steps|
    requires ManifestKey(w.at) in states[i].store
    ensures forall k :: k in states[i].store ==> k in states[j].store
    ensures MarkerKey(w.at) !in states[j].store
    ensures forall c :: c in w.tokens ==> !MayDelete(w, states[j].store, c)
  {
    hide Exec;
    hide Enabled;
    hide Fresh;
    hide ValidWorld;
    hide ManifestKey;
    hide MarkerKey;
    RunInv(w, states, steps, j);
    if i < j {
      NothingDeletedAfterPublish(w, states, steps, i, j - 1);
      RunInv(w, states, steps, j - 1);
      PublishedStep(w, states[j - 1], steps[j - 1]);
    }
  }

  /** A cleanup run whose marker is gone or replaced. */
  ghost predicate ClaimLost(w: World, s: State, c: nat) {
    && c in s.phase && PostClaim(s.phase[c])
    && c in w.tokens
    && !(MarkerKey(w.at) in s.store && s.store[MarkerKey(w.at)] == w.tokens[c])
  }

  lemma ClaimLostStep(w: World, s: State, st: Step, c: nat)
    requires ValidWorld(w) && Enabled(w, s, st) && ClaimLost(w, s, c)
    ensures ClaimLost(w, Exec(w, s, st), c)
  {
    MarkerEffect(w, s, st);
    PhaseEffect(w, s, st);
    hide Exec;
    hide ValidPlan;
    hide MarkerKey;
    hide ManifestKey;
  }

  lemma {:induction false} ClaimStaysLost(w: World, states: seq<State>, steps: seq<Step>, j: nat, k: nat, c: nat)
    requires ValidWorld(w) && IsRun(w, states, steps) && j <= k <= |steps| && ClaimLost(w, states[j], c)
    ensures ClaimLost(w, states[k], c)
  {
    hide Exec;
    hide Enabled;
    hide Fresh;
    hide ValidWorld;
    hide ClaimLost;
    if j < k {
      ClaimStaysLost(w, states, steps, j, k - 1, c);
      ClaimLostStep(w, states[k - 1], steps[k - 1], c);
    }
  }

  lemma {:induction false} PostClaimStays(w: World, states: seq<State>, steps: seq<Step>, i: nat, j: nat, c: nat)
    requires IsRun(w, states, steps) && i <= j <= |steps|
    requires c in states[i].phase && PostClaim(states[i].phase[c])
    ensures c in states[j].phase && PostClaim(states[j].phase[c])
  {
    hide Fresh;
    hide Exec;
    hide Enabled;
    if i < j {
      PostClaimStays(w, states, steps, i, j - 1, c);
      PhaseEffect(w, states[j - 1], steps[j - 1]);
    }
  }

  /** A run that once held the marker and then did not never deletes again under
      that claim. */
  lemma LostClaimNeverDeletes(w: World, states: seq<State>, steps: seq<Step>, i: nat, j: nat, k: nat, c: nat)
    requires ValidWorld(w) && IsRun(w, states, steps) && i <= j <= k <= |steps| && c in w.tokens
    requires MarkerKey(w.at) in states[i].store && states[i].store[MarkerKey(w.at)] == w.tokens[c]
    requires !(MarkerKey(w.at) in states[j].store && states[j].store[MarkerKey(w.at)] == w.tokens[c])
    ensures !MayDelete(w, states[k].store, c)
  {
    hide IsRun;
    hide MarkerKey;
    hide ManifestKey;
    hide ValidWorld;
    RunInv(w, states, steps, i);
    PostClaimStays(w, states, steps, i, j, c);
    ClaimStaysLost(w, states, steps, j, k, c);
  }
}
