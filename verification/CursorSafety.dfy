/** What holds in every state that indexers can reach, however they interleave,
    race and crash. */
module CursorSafety {
  import opened Basics
  import opened CyclicOrder
  import opened ScopeRegistry
  import opened FairSchedule
  import opened SweepDetection
  import opened CursorProtocol

  // Reading the log.

  /** The cursor's text after the first `t` events. */
  ghost function LastWritten(log: seq<Event>, t: nat): Option<string>
    requires t <= |log|
  {
    if t == 0 then None
    else if log[t - 1].Wrote? then Some(log[t - 1].now)
    else LastWritten(log, t - 1)
  }

  ghost predicate RanBetween(log: seq<Event>, lo: nat, hi: nat, ix: nat, scope: string) {
    exists u :: lo < u < hi && u < |log| && log[u] == Ran(ix, scope)
  }

  ghost predicate NoWrites(log: seq<Event>, lo: nat, hi: nat) {
    forall u :: lo < u < hi && u < |log| ==> !log[u].Wrote?
  }

  /** At event `at` the indexer read or wrote this cursor text. */
  ghost predicate Seen(log: seq<Event>, at: nat, ix: nat, text: Option<string>) {
    at < |log| && log[at].ix == ix
    && (log[at].Began? ==> log[at].cursor == text)
    && (log[at].Wrote? ==> Some(log[at].now) == text)
    && !log[at].Ran?
  }

  /** `from` is where a pass over `names` goes on after the cursor `was`. */
  ghost predicate Follows(names: seq<string>, was: Option<string>, from: nat)
    requires names != []
  {
    || from == StartIndex(names, was)
    || exists p :: 0 <= p < |names| && was == Some(names[p]) && from == Around(|names|, p, 1)
  }

  lemma FollowsSearchable(names: seq<string>, was: Option<string>, from: nat)
    requires names != [] && Searchable(names) && NoDup(names) && Follows(names, was, from)
    ensures from == StartIndex(names, was)
  {
    if from != StartIndex(names, was) {
      var p :| 0 <= p < |names| && was == Some(names[p]) && from == Around(|names|, p, 1);
      StartAfter(names, p);
    }
  }

  ghost predicate CoveredSince(log: seq<Event>, s: nat, t: nat, unique: bool)
    requires t < |log| && log[t].Wrote? && log[t].names != []
  {
    var e := log[t];
    && Seen(log, s, e.ix, e.was)
    && (unique ==> NoWrites(log, s, t))
    && forall o :: 0 <= o < e.len ==> RanBetween(log, s, t, e.ix, e.names[Around(|e.names|, e.from, o)])
  }

  /** The write at `t` moves the cursor on from its last value, and every scope
      it passes was run by the writer after the writer saw that value. When the
      store never reuses a version, no other write came in between. */
  ghost predicate Covered(log: seq<Event>, t: nat, unique: bool)
    requires t < |log| && log[t].Wrote?
  {
    var e := log[t];
    && 1 <= e.len <= |e.names| && e.from < |e.names|
    && e.was == LastWritten(log, t)
    && e.now == e.names[Around(|e.names|, e.from, e.len - 1)]
    && Follows(e.names, e.was, e.from)
    && exists s :: 0 <= s < t && CoveredSince(log, s, t, unique)
  }

  ghost predicate AllCovered(log: seq<Event>, unique: bool) {
    forall t :: 0 <= t < |log| && log[t].Wrote? ==> Covered(log, t, unique)
  }

  // The invariant.

  ghost predicate Held(issued: map<nat, string>, c: Cursor) {
    match c.version
    case None => c.lastScope.None?
    case Some(v) => v in issued && c.lastScope == Some(issued[v])
  }

  ghost predicate DurableOk(s: System) {
    match s.durable
    case None => LastWritten(s.log, |s.log|).None?
    case Some(o) =>
      LastWritten(s.log, |s.log|) == Some(o.value) && o.version in s.issued && s.issued[o.version] == o.value
  }

  /** The part of a running cycle that does not look at the log. */
  ghost predicate CycleShape(x: Indexer)
    requires x.cycle.Some?
  {
    var c := x.cycle.value;
    && x.names != [] && c.budget > 0 && c.concurrency > 0
    && c.done <= SliceLen(|x.names|, c.budget)
    && (!c.stopped ==> c.cursor.Some?)
    && (c.cursor.Some? ==> c.cursor.value.lastScope == CursorAfter(x.names, c.begun, c.done))
    && forall p :: p in c.ran ==> p < |x.names|
  }

  ghost predicate CycleLogged(log: seq<Event>, ix: nat, x: Indexer)
    requires x.cycle.Some?
  {
    var c := x.cycle.value;
    && c.since < |log|
    && (c.cursor.Some? ==> Seen(log, c.since, ix, c.cursor.value.lastScope))
    && forall p :: p in c.ran && p < |x.names| ==> RanBetween(log, c.since, |log|, ix, x.names[p])
  }

  /** A cursor that still matches the store has not been overtaken. */
  ghost predicate CycleFresh(s: System, c: Cycle) {
    c.cursor.Some? && Matches(s.durable, c.cursor.value.version) ==> NoWrites(s.log, c.since, |s.log|)
  }

  ghost predicate CycleOk(s: System, ix: nat, x: Indexer, unique: bool)
    requires x.cycle.Some?
  {
    var c := x.cycle.value;
    && CycleShape(x)
    && CycleLogged(s.log, ix, x)
    && (c.cursor.Some? ==> Held(s.issued, c.cursor.value))
    && (unique ==> CycleFresh(s, c))
  }

  ghost predicate IndexerOk(s: System, ix: nat, x: Indexer, unique: bool) {
    && NoDup(x.names)
    && (x.kept.Some? ==> Held(s.issued, x.kept.value))
    && (x.cycle.Some? ==> CycleOk(s, ix, x, unique))
  }

  ghost predicate IndexersOk(s: System, unique: bool) {
    forall i :: 0 <= i < |s.indexers| ==> IndexerOk(s, i, s.indexers[i], unique)
  }

  ghost predicate Inv(s: System, unique: bool) {
    && !s.panicked
    && DurableOk(s)
    && AllCovered(s.log, unique)
    && IndexersOk(s, unique)
  }

  // The log only grows.

  lemma {:induction false} LastWrittenGrows(log: seq<Event>, more: seq<Event>, t: nat)
    requires t <= |log| && log <= more
    ensures LastWritten(more, t) == LastWritten(log, t)
  {
    if t > 0 { LastWrittenGrows(log, more, t - 1); }
  }

  lemma CoveredGrows(log: seq<Event>, more: seq<Event>, t: nat, unique: bool)
    requires log <= more && t < |log| && log[t].Wrote? && Covered(log, t, unique)
    ensures Covered(more, t, unique)
  {
    var e := log[t];
    LastWrittenGrows(log, more, t);
    var s :| 0 <= s < t && CoveredSince(log, s, t, unique);
    forall o | 0 <= o < e.len
      ensures RanBetween(more, s, t, e.ix, e.names[Around(|e.names|, e.from, o)])
    {
      var scope := e.names[Around(|e.names|, e.from, o)];
      assert RanBetween(log, s, t, e.ix, scope);
      var u :| s < u < t && u < |log| && log[u] == Ran(e.ix, scope);
      assert more[u] == Ran(e.ix, scope);
    }
    assert CoveredSince(more, s, t, unique);
  }

  lemma RanGrows(log: seq<Event>, more: seq<Event>, lo: nat, ix: nat, scope: string)
    requires log <= more && RanBetween(log, lo, |log|, ix, scope)
    ensures RanBetween(more, lo, |more|, ix, scope)
  {
    var u :| lo < u < |log| && u < |log| && log[u] == Ran(ix, scope);
    assert more[u] == Ran(ix, scope);
  }

  lemma LoggedGrows(log: seq<Event>, more: seq<Event>, ix: nat, x: Indexer)
    requires log <= more && x.cycle.Some? && CycleLogged(log, ix, x)
    ensures CycleLogged(more, ix, x)
  {
    var c := x.cycle.value;
    forall p | p in c.ran && p < |x.names| ensures RanBetween(more, c.since, |more|, ix, x.names[p]) {
      RanGrows(log, more, c.since, ix, x.names[p]);
    }
  }

  /** A step that does not write. */
  ghost predicate Quiet(s: System, t: System) {
    && t.durable == s.durable && t.issued == s.issued
    && s.log <= t.log && |t.log| <= |s.log| + 1
    && (|t.log| > |s.log| ==> !t.log[|s.log|].Wrote?)
  }

  lemma QuietCycle(s: System, t: System, ix: nat, x: Indexer, unique: bool)
    requires Quiet(s, t) && x.cycle.Some? && CycleOk(s, ix, x, unique)
    ensures CycleOk(t, ix, x, unique)
  {
    LoggedGrows(s.log, t.log, ix, x);
    var c := x.cycle.value;
    if unique && c.cursor.Some? && Matches(t.durable, c.cursor.value.version) {
      assert NoWrites(s.log, c.since, |s.log|);
      forall u | c.since < u < |t.log| ensures !t.log[u].Wrote? {
        if u < |s.log| { assert t.log[u] == s.log[u]; }
      }
    }
  }

  lemma QuietLog(s: System, t: System, unique: bool)
    requires Quiet(s, t) && DurableOk(s) && AllCovered(s.log, unique)
    ensures DurableOk(t) && AllCovered(t.log, unique)
  {
    LastWrittenGrows(s.log, t.log, |s.log|);
    forall i | 0 <= i < |t.log| && t.log[i].Wrote? ensures Covered(t.log, i, unique) {
      assert i < |s.log|;
      CoveredGrows(s.log, t.log, i, unique);
    }
  }

  /** A quiet step of one indexer keeps the invariant if that indexer's own
      state stays sound. */
  lemma QuietInv(s: System, t: System, ix: nat, unique: bool)
    requires Inv(s, unique) && Quiet(s, t) && !t.panicked && ix < |s.indexers|
    requires |t.indexers| == |s.indexers| && t.indexers == s.indexers[ix := t.indexers[ix]]
    requires IndexerOk(t, ix, t.indexers[ix], unique)
    ensures Inv(t, unique)
  {
    QuietLog(s, t, unique);
    forall i | 0 <= i < |t.indexers| ensures IndexerOk(t, i, t.indexers[i], unique) {
      if i != ix {
        assert t.indexers[i] == s.indexers[i] && IndexerOk(s, i, s.indexers[i], unique);
        if s.indexers[i].cycle.Some? { QuietCycle(s, t, i, s.indexers[i], unique); }
      }
    }
  }

  // Step by step.

  lemma BeginKeeps(s: System, ix: nat, budget: nat, concurrency: nat, unique: bool)
    requires Inv(s, unique) && Enabled(s, Begin(ix, budget, concurrency), unique)
    ensures Inv(Started(s, ix, budget, concurrency), unique)
  {
    var t := Started(s, ix, budget, concurrency);
    var x := s.indexers[ix];
    assert IndexerOk(s, ix, x, unique);
    var y := t.indexers[ix];
    var c := y.cycle.value;
    assert Held(s.issued, c.cursor.value);
    assert t.log[c.since] == Began(ix, c.cursor.value.lastScope);
    assert CycleShape(y);
    assert IndexerOk(t, ix, y, unique);
    QuietInv(s, t, ix, unique);
  }

  lemma RunScopeKeeps(s: System, ix: nat, position: nat, unique: bool)
    requires Inv(s, unique) && Enabled(s, RunScope(ix, position), unique)
    ensures Inv(ScopeRun(s, ix, position), unique)
  {
    var t := ScopeRun(s, ix, position);
    var x, y := s.indexers[ix], t.indexers[ix];
    assert IndexerOk(s, ix, x, unique);
    QuietCycle(s, t, ix, x, unique);
    var c := y.cycle.value;
    forall p | p in c.ran && p < |y.names| ensures RanBetween(t.log, c.since, |t.log|, ix, y.names[p]) {
      if p == position {
        assert t.log[|s.log|] == Ran(ix, y.names[p]);
      } else {
        assert p in x.cycle.value.ran;
      }
    }
    assert CycleOk(t, ix, y, unique);
    QuietInv(s, t, ix, unique);
  }

  lemma DropKeeps(s: System, ix: nat, unique: bool)
    requires Inv(s, unique) && ix < |s.indexers| && Running(s.indexers[ix])
    ensures Inv(WithIndexer(s, ix, Dropped(s.indexers[ix])), unique)
  {
    var t := WithIndexer(s, ix, Dropped(s.indexers[ix]));
    assert IndexerOk(s, ix, s.indexers[ix], unique);
    assert IndexerOk(t, ix, t.indexers[ix], unique);
    QuietInv(s, t, ix, unique);
  }

  lemma FinishKeeps(s: System, ix: nat, failed: bool, unique: bool)
    requires Inv(s, unique) && Enabled(s, Finish(ix, failed), unique)
    ensures Inv(WithIndexer(s, ix, Finished(s.indexers[ix], failed)), unique)
  {
    var t := WithIndexer(s, ix, Finished(s.indexers[ix], failed));
    assert IndexerOk(s, ix, s.indexers[ix], unique);
    assert IndexerOk(t, ix, t.indexers[ix], unique);
    QuietInv(s, t, ix, unique);
  }

  lemma ResetKeeps(s: System, ix: nat, y: Indexer, unique: bool)
    requires Inv(s, unique) && ix < |s.indexers| && y.cycle.None? && NoDup(y.names)
    requires y.kept.Some? ==> Held(s.issued, y.kept.value)
    ensures Inv(WithIndexer(s, ix, y), unique)
  {
    QuietInv(s, WithIndexer(s, ix, y), ix, unique);
  }

  // The put.

  /** Where the current batch starts, seen from the cursor. */
  lemma BatchFollows(x: Indexer)
    requires Running(x) && CycleShape(x)
    ensures x.cycle.value.cursor.Some?
    ensures Follows(x.names, x.cycle.value.cursor.value.lastScope, BatchAt(x, 0))
  {
    var c := x.cycle.value;
    var n, start := |x.names|, SliceStart(x);
    if c.done == 0 {
      ModLap(start, 0, n);
    } else {
      var p := Around(n, start, c.done - 1);
      AroundAround(n, start, c.done - 1, 1);
      assert c.cursor.value.lastScope == Some(x.names[p]);
    }
  }

  lemma BatchOffset(x: Indexer, o: nat)
    requires x.names != [] && x.cycle.Some?
    ensures BatchAt(x, o) == Around(|x.names|, BatchAt(x, 0), o)
  {
    AroundAround(|x.names|, SliceStart(x), x.cycle.value.done, o);
  }

  lemma BatchFits(x: Indexer)
    requires Running(x) && CycleShape(x)
    ensures 1 <= BatchLen(x) <= |x.names|
    ensures x.cycle.value.done + BatchLen(x) <= SliceLen(|x.names|, x.cycle.value.budget)
  {
  }

  /** A successful condition means the cursor held is the durable value. */
  lemma MatchedValue(s: System, c: Cursor)
    requires DurableOk(s) && Held(s.issued, c) && Matches(s.durable, c.version)
    ensures c.lastScope == LastWritten(s.log, |s.log|)
  {
  }

  lemma PutCovered(s: System, ix: nat, v: nat, unique: bool)
    requires Inv(s, unique) && ix < |s.indexers| && Running(s.indexers[ix]) && BatchDone(s.indexers[ix])
    requires s.indexers[ix].cycle.value.cursor.Some?
    requires Matches(s.durable, s.indexers[ix].cycle.value.cursor.value.version)
    ensures Covered(Put(s, ix, v).log, |s.log|, unique)
  {
    var x := s.indexers[ix];
    var c := x.cycle.value;
    assert IndexerOk(s, ix, x, unique);
    var log := Put(s, ix, v).log;
    var t := |s.log|;
    var e := log[t];
    BatchFits(x);
    BatchFollows(x);
    MatchedValue(s, c.cursor.value);
    LastWrittenGrows(s.log, log, t);
    BatchOffset(x, e.len - 1);
    forall o | 0 <= o < e.len ensures RanBetween(log, c.since, t, ix, e.names[Around(|e.names|, e.from, o)]) {
      BatchOffset(x, o);
      var p := BatchAt(x, o);
      assert p in c.ran;
      assert RanBetween(s.log, c.since, t, ix, x.names[p]);
      var u :| c.since < u < t && u < |s.log| && s.log[u] == Ran(ix, x.names[p]);
      assert log[u] == s.log[u];
    }
    assert Seen(log, c.since, ix, e.was) by { assert log[c.since] == s.log[c.since]; }
    if unique {
      assert NoWrites(s.log, c.since, |s.log|);
      forall u | c.since < u < t ensures !log[u].Wrote? { assert log[u] == s.log[u]; }
    }
    assert CoveredSince(log, c.since, t, unique);
  }

  lemma PutLog(s: System, ix: nat, v: nat, unique: bool)
    requires Inv(s, unique) && ix < |s.indexers| && Running(s.indexers[ix]) && BatchDone(s.indexers[ix])
    requires s.indexers[ix].cycle.value.cursor.Some?
    requires Matches(s.durable, s.indexers[ix].cycle.value.cursor.value.version)
    ensures AllCovered(Put(s, ix, v).log, unique) && DurableOk(Put(s, ix, v))
  {
    var t := Put(s, ix, v);
    PutCovered(s, ix, v, unique);
    forall i | 0 <= i < |t.log| && t.log[i].Wrote? ensures Covered(t.log, i, unique) {
      if i < |s.log| {
        assert t.log[i] == s.log[i];
        CoveredGrows(s.log, t.log, i, unique);
      }
    }
  }

  /** The other indexers, and the writer's own kept cursor, across a put. */
  lemma PutOthers(s: System, ix: nat, v: nat, i: nat, unique: bool)
    requires Inv(s, unique) && ix < |s.indexers| && Running(s.indexers[ix]) && i < |s.indexers|
    requires s.indexers[ix].cycle.value.cursor.Some?
    requires VersionAllowed(s, unique, v, BatchLast(s.indexers[ix]))
    ensures IndexerOk(Put(s, ix, v), i, s.indexers[i], unique)
  {
    var t := Put(s, ix, v);
    var x := s.indexers[i];
    assert IndexerOk(s, i, x, unique);
    if x.cycle.Some? {
      LoggedGrows(s.log, t.log, i, x);
      var c := x.cycle.value;
      if unique && c.cursor.Some? {
        assert !Matches(t.durable, c.cursor.value.version);
      }
    }
  }

  lemma AdvanceShape(x: Indexer, v: nat, since: nat)
    requires Running(x) && CycleShape(x)
    ensures CycleShape(Advanced(x, v, since))
  {
    BatchFits(x);
    var c := x.cycle.value;
    assert c.done + BatchLen(x) - 1 == c.done + (BatchLen(x) - 1);
  }

  lemma AppliedKeeps(s: System, ix: nat, v: nat, seen: bool, unique: bool)
    requires Inv(s, unique) && Enabled(s, Advance(ix, if seen then Applied(v) else AppliedUnseen(v)), unique)
    ensures s.indexers[ix].cycle.value.cursor.Some?
    ensures Inv(Moved(s, ix, if seen then Applied(v) else AppliedUnseen(v)), unique)
  {
    var x := s.indexers[ix];
    assert IndexerOk(s, ix, x, unique);
    var p := Put(s, ix, v);
    PutLog(s, ix, v, unique);
    forall i | 0 <= i < |p.indexers| ensures IndexerOk(p, i, p.indexers[i], unique) {
      PutOthers(s, ix, v, i, unique);
    }
    assert Inv(p, unique);
    if seen {
      var y := Advanced(x, v, |s.log|);
      AdvanceShape(x, v, |s.log|);
      var t := WithIndexer(p, ix, y);
      assert p.log[|s.log|].Wrote?;
      assert CycleOk(t, ix, y, unique);
      QuietInv(p, t, ix, unique);
    } else {
      DropKeeps(p, ix, unique);
    }
  }

  lemma StepKeeps(s: System, step: Step, unique: bool)
    requires Inv(s, unique) && Enabled(s, step, unique)
    ensures Inv(Apply(s, step, unique), unique)
  {
    var x := s.indexers[step.ix];
    assert IndexerOk(s, step.ix, x, unique);
    match step
    case Discover(ix, names) => ResetKeeps(s, ix, x.(names := names), unique);
    case Begin(ix, budget, concurrency) => BeginKeeps(s, ix, budget, concurrency, unique);
    case RunScope(ix, position) => RunScopeKeeps(s, ix, position, unique);
    case Advance(ix, outcome) =>
      match outcome {
        case Applied(v) => AppliedKeeps(s, ix, v, true, unique);
        case AppliedUnseen(v) => AppliedKeeps(s, ix, v, false, unique);
        case Rejected => DropKeeps(s, ix, unique);
        case Failed => DropKeeps(s, ix, unique);
      }
    case Finish(ix, failed) => FinishKeeps(s, ix, failed, unique);
    case Crash(ix) => ResetKeeps(s, ix, Idle(), unique);
  }

  lemma {:induction false} RunKeeps(s: System, steps: seq<Step>, unique: bool)
    requires Inv(s, unique) && ValidRun(s, steps, unique)
    ensures Inv(Run(s, steps, unique), unique)
    decreases |steps|
  {
    if steps != [] {
      StepKeeps(s, steps[0], unique);
      RunKeeps(Apply(s, steps[0], unique), steps[1..], unique);
    }
  }

  // Main results.

  /** In every run, each cursor write continues the one before it and covers
      every scope it passes. */
  lemma WritesAreCovered(s: System, steps: seq<Step>, unique: bool)
    requires Init(s) && ValidRun(s, steps, unique)
    ensures AllCovered(Run(s, steps, unique).log, unique)
    ensures DurableOk(Run(s, steps, unique))
  {
    RunKeeps(s, steps, unique);
  }

  /** Taking the cursor before a batch never finds it gone. */
  lemma CursorPrecedesEveryBatch(s: System, steps: seq<Step>, unique: bool)
    requires Init(s) && ValidRun(s, steps, unique)
    ensures var t := Run(s, steps, unique);
            && !t.panicked
            && (forall i :: 0 <= i < |t.indexers| && Running(t.indexers[i]) ==> t.indexers[i].cycle.value.cursor.Some?)
  {
    RunKeeps(s, steps, unique);
    var t := Run(s, steps, unique);
    forall i | 0 <= i < |t.indexers| && Running(t.indexers[i]) ensures t.indexers[i].cycle.value.cursor.Some? {
      assert IndexerOk(t, i, t.indexers[i], unique);
    }
  }

  /** A lost race changes nothing durable, and the loser has no cursor to keep:
      its next cycle loads the winner's. */
  lemma LostRaceLeavesCursor(s: System, ix: nat, failed: bool, unique: bool)
    requires Inv(s, unique) && Enabled(s, Advance(ix, Rejected), unique)
    ensures var t := Apply(s, Advance(ix, Rejected), unique);
            && t.durable == s.durable && t.log == s.log
            && Enabled(t, Finish(ix, failed), unique)
            && var u := Apply(t, Finish(ix, failed), unique);
               && u.indexers[ix].kept.None?
               && forall budget, concurrency :: Enabled(u, Begin(ix, budget, concurrency), unique) ==>
                    Apply(u, Begin(ix, budget, concurrency), unique).indexers[ix].cycle.value.cursor
                        == Some(Load(s.durable))
  {
    assert IndexerOk(s, ix, s.indexers[ix], unique);
  }

  /** A pass discards its registry snapshot, so that the next one lists the
      registry again, exactly if nothing failed and it landed on or crossed the
      final scope, full laps from another registered scope excepted. */
  lemma SweptIsRelisted(s: System, ix: nat, failed: bool, unique: bool)
    requires Inv(s, unique) && Enabled(s, Finish(ix, failed), unique) && StrictlySorted(s.indexers[ix].names)
    ensures var x := s.indexers[ix]; var t := Apply(s, Finish(ix, failed), unique);
            && (Enabled(t, Discover(ix, x.names), unique) <==>
                  && !failed && VisitsFinal(x.names, x.cycle.value.begun, x.cycle.value.done)
                  && !SilentLap(x.names, x.cycle.value.begun, x.cycle.value.done))
            && (Enabled(t, Begin(ix, 1, 1), unique) <==> !Enabled(t, Discover(ix, x.names), unique))
            && t.log == s.log && t.durable == s.durable
  {
    var x := s.indexers[ix];
    assert IndexerOk(s, ix, x, unique);
    SweepExact(x.names, x.cycle.value.begun, x.cycle.value.done);
    hide Reports, VisitsFinal, SilentLap, StrictlySorted;
  }

  /** A put that takes effect passes one batch: as many scopes as may run at once,
      or what is left of the slice. */
  lemma PutPassesBatch(s: System, ix: nat, version: nat, unique: bool)
    requires Inv(s, unique) && Enabled(s, Advance(ix, Applied(version)), unique)
    ensures var x := s.indexers[ix]; var t := Apply(s, Advance(ix, Applied(version)), unique);
            var c, n := x.cycle.value, |x.names|;
            && t.indexers[ix].cycle.Some?
            && t.indexers[ix].cycle.value.done == Min(c.done + c.concurrency, Min(n, c.budget))
            && t.indexers[ix].cycle.value.cursor == Some(Load(t.durable)) && t.durable.Some?
            && |t.log| == |s.log| + 1 && t.log[|s.log|].Wrote?
            && t.log[|s.log|].len == t.indexers[ix].cycle.value.done - c.done
            && t.durable.value.value == t.log[|s.log|].now
  {
    assert IndexerOk(s, ix, s.indexers[ix], unique);
    hide BatchAt, BatchDone, Held, CycleLogged, CycleFresh, DurableOk, AllCovered;
  }

  lemma {:induction false} OthersLeaveAlone(s: System, steps: seq<Step>, ix: nat, unique: bool)
    requires ValidRun(s, steps, unique) && ix < |s.indexers| && forall i :: 0 <= i < |steps| ==> steps[i].ix != ix
    ensures ix < |Run(s, steps, unique).indexers| && Run(s, steps, unique).indexers[ix] == s.indexers[ix]
    decreases |steps|
  {
    hide Enabled, Apply;
    if steps != [] {
      OneLeavesAlone(s, steps[0], ix, unique);
      OthersLeaveAlone(Apply(s, steps[0], unique), steps[1..], ix, unique);
    }
  }

  lemma OneLeavesAlone(s: System, step: Step, ix: nat, unique: bool)
    requires Enabled(s, step, unique) && ix < |s.indexers| && step.ix != ix
    ensures ix < |Apply(s, step, unique).indexers| && Apply(s, step, unique).indexers[ix] == s.indexers[ix]
  {
    hide BatchLen, BatchAt, BatchDone, Reports;
  }

  /** A pass that kept its cursor is resumed where it left off, whatever others
      have written since; one that lost it starts from the store's. */
  lemma NextPassResumes(s: System, ix: nat, failed: bool, others: seq<Step>, budget: nat, concurrency: nat,
                        unique: bool)
    requires Enabled(s, Finish(ix, failed), unique)
    requires var t := Apply(s, Finish(ix, failed), unique);
             && ValidRun(t, others, unique) && (forall i :: 0 <= i < |others| ==> others[i].ix != ix)
             && Enabled(Run(t, others, unique), Begin(ix, budget, concurrency), unique)
    ensures var u := Run(Apply(s, Finish(ix, failed), unique), others, unique);
            var v := Apply(u, Begin(ix, budget, concurrency), unique);
            var c := s.indexers[ix].cycle.value;
            && ix < |v.indexers| && v.indexers[ix].cycle.Some?
            && v.indexers[ix].cycle.value.cursor == Some(if c.cursor.Some? then c.cursor.value else Load(u.durable))
            && v.indexers[ix].cycle.value.begun == v.indexers[ix].cycle.value.cursor.value.lastScope
  {
    var t := Apply(s, Finish(ix, failed), unique);
    OthersLeaveAlone(t, others, ix, unique);
    hide Run, ValidRun, Reports;
  }

  ghost predicate NoneBegins(steps: seq<Step>, ix: nat) {
    forall i :: 0 <= i < |steps| && steps[i].Begin? ==> steps[i].ix != ix
  }

  lemma SilentStep(s: System, step: Step, ix: nat, unique: bool)
    requires Inv(s, unique) && Enabled(s, step, unique) && ix < |s.indexers| && !Running(s.indexers[ix])
    requires step.Begin? ==> step.ix != ix
    ensures var t := Apply(s, step, unique);
            && s.log <= t.log && |t.indexers| == |s.indexers| && !Running(t.indexers[ix])
            && (forall u :: |s.log| <= u < |t.log| && t.log[u].Wrote? ==> t.log[u].ix != ix)
  {
    hide CycleOk, Held, AllCovered, DurableOk, BatchLen, BatchAt, BatchDone, Reports;
    assert IndexerOk(s, step.ix, s.indexers[step.ix], unique);
    assert step.ix == ix ==> step.Discover? || step.Finish? || step.Crash?;
  }

  /** Once its pass has ended, by a race, an error, the end of the slice or a
      crash, an indexer writes nothing until it begins another. */
  lemma {:induction false} SilentUntilBegin(s: System, steps: seq<Step>, ix: nat, unique: bool)
    requires Inv(s, unique) && ValidRun(s, steps, unique) && ix < |s.indexers| && !Running(s.indexers[ix])
    requires NoneBegins(steps, ix)
    ensures var t := Run(s, steps, unique);
            && s.log <= t.log
            && (forall u :: |s.log| <= u < |t.log| && t.log[u].Wrote? ==> t.log[u].ix != ix)
    decreases |steps|
  {
    hide Inv, Enabled, Apply, Running;
    if steps != [] {
      var step := steps[0];
      StepKeeps(s, step, unique);
      SilentStep(s, step, ix, unique);
      var t := Apply(s, step, unique);
      SilentUntilBegin(t, steps[1..], ix, unique);
    }
  }
}

/** No scope starves, even while indexers race and crash. */
module CursorFairness {
  import opened Basics
  import opened CyclicOrder
  import opened ScopeRegistry
  import opened FairSchedule
  import opened CursorProtocol
  import opened CursorSafety

  /** How many scopes the writes among events `a..b` pass in all. */
  ghost function Progress(log: seq<Event>, a: nat, b: nat): nat
    requires a <= b <= |log|
    decreases b
  {
    if a == b then 0
    else Progress(log, a, b - 1) + if log[b - 1].Wrote? then log[b - 1].len else 0
  }

  ghost predicate RanIn(log: seq<Event>, a: nat, b: nat, scope: string) {
    exists u :: 0 <= a <= u < b && u < |log| && log[u].Ran? && log[u].scope == scope
  }

  /** Every write among events `a..b` used this registry. */
  ghost predicate SameRegistry(log: seq<Event>, a: nat, b: nat, names: seq<string>) {
    forall t :: 0 <= a <= t < b && t < |log| && log[t].Wrote? ==> log[t].names == names
  }

  lemma RanWidens(log: seq<Event>, a: nat, b: nat, scope: string)
    requires b > 0 && RanIn(log, a, b - 1, scope)
    ensures RanIn(log, a, b, scope)
  {
  }

  /** The scopes one write passes were run after the write before it. */
  lemma WritePasses(log: seq<Event>, a: nat, t: nat, o: nat)
    requires a <= t < |log| && log[t].Wrote? && Covered(log, t, true)
    requires a == 0 || log[a - 1].Wrote?
    requires o < log[t].len
    ensures RanIn(log, a, t + 1, log[t].names[Around(|log[t].names|, log[t].from, o)])
  {
    var e := log[t];
    var s :| 0 <= s < t && CoveredSince(log, s, t, true);
    var scope := e.names[Around(|e.names|, e.from, o)];
    assert RanBetween(log, s, t, e.ix, scope);
    var u :| s < u < t && u < |log| && log[u] == Ran(e.ix, scope);
    assert a > 0 ==> !(s < a - 1);
  }

  lemma WriteExtends(log: seq<Event>, a: nat, t: nat, names: seq<string>, start: nat, before: nat)
    requires a <= t < |log| && log[t].Wrote? && AllCovered(log, true) && (a == 0 || log[a - 1].Wrote?)
    requires names != [] && Searchable(names) && NoDup(names) && log[t].names == names
    requires StartIndex(names, LastWritten(log, t)) == Around(|names|, start, before)
    ensures StartIndex(names, LastWritten(log, t + 1)) == Around(|names|, start, before + log[t].len)
    ensures forall m :: before <= m < before + log[t].len ==> RanIn(log, a, t + 1, names[Around(|names|, start, m)])
  {
    hide Searchable, NoDup, Follows, CoveredSince, RanIn, Around, StartIndex;
    var n, e := |names|, log[t];
    assert Covered(log, t, true);
    FollowsSearchable(names, e.was, e.from);
    NextStart(names, e.was, e.len);
    assert LastWritten(log, t + 1) == Some(e.now) == CursorAfter(names, e.was, e.len);
    AroundAround(n, start, before, e.len);
    forall m | before <= m < before + e.len ensures RanIn(log, a, t + 1, names[Around(n, start, m)]) {
      WritePasses(log, a, t, m - before);
      AroundAround(n, start, before, m - before);
    }
  }

  /** The cursor walks the registry without a gap, whoever moves it. */
  lemma {:induction false} SegmentCovered(log: seq<Event>, a: nat, b: nat, names: seq<string>)
    requires AllCovered(log, true) && a <= b <= |log| && (a == 0 || log[a - 1].Wrote?)
    requires names != [] && Searchable(names) && NoDup(names) && SameRegistry(log, a, b, names)
    ensures var start := StartIndex(names, LastWritten(log, a));
            && StartIndex(names, LastWritten(log, b)) == Around(|names|, start, Progress(log, a, b))
            && forall m :: 0 <= m < Progress(log, a, b) ==> RanIn(log, a, b, names[Around(|names|, start, m)])
    decreases b
  {
    hide Searchable, NoDup, AllCovered, Follows, CoveredSince, RanIn;
    var n := |names|;
    var start := StartIndex(names, LastWritten(log, a));
    if a == b {
      ModLap(start, 0, n);
    } else {
      var t := b - 1;
      var before := Progress(log, a, t);
      SegmentCovered(log, a, t, names);
      forall m | 0 <= m < before ensures RanIn(log, a, b, names[Around(n, start, m)]) {
        RanWidens(log, a, b, names[Around(n, start, m)]);
      }
      if log[t].Wrote? {
        WriteExtends(log, a, t, names, start, before);
      }
    }
  }

  /** In every run over one registry, whenever the cursor has passed as many
      scopes as there are since a write, every scope has been run since. */
  lemma NoScopeStarves(s: System, steps: seq<Step>, names: seq<string>, a: nat, b: nat, p: nat)
    requires Init(s) && ValidRun(s, steps, true)
    requires names != [] && StrictlySorted(names) && p < |names|
    requires var log := Run(s, steps, true).log;
             && a <= b <= |log| && (a == 0 || log[a - 1].Wrote?)
             && SameRegistry(log, a, b, names)
             && Progress(log, a, b) >= |names|
    ensures RanIn(Run(s, steps, true).log, a, b, names[p])
  {
    hide *;
    var log := Run(s, steps, true).log;
    WritesAreCovered(s, steps, true);
    SortedNoDup(names);
    SortedIsSearchable(names);
    SegmentCovered(log, a, b, names);
    var start := StartIndex(names, LastWritten(log, a));
    var m := ModReaches(start, p, |names|);
  }
}
