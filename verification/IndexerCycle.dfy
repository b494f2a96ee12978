/** One cycle of one indexer as the loop it is: batches of the fair slice, the
    cursor moved after each, the schedule updated at the end. */
module IndexerCycle {
  import opened Basics
  import opened CyclicOrder
  import opened ScopeRegistry
  import opened FairSchedule
  import opened SweepDetection
  import opened CursorProtocol
  import ScopeCacheResults

  /** The cursor object in the object store. */
  class CursorObject {
    var stored: Option<Stored>
    var nextVersion: nat

    constructor ()
      ensures stored.None?
    {
      stored, nextVersion := None, 0;
    }

    /** `load_scope_cursor`. */
    method LoadCursor() returns (c: Cursor)
      ensures c == Load(stored)
    {
      if stored.None? { return Cursor(None, None); }
      c := Cursor(Some(stored.value.value), Some(stored.value.version));
    }

    /** `advance_scope_cursor`: create if nothing was seen, else update that
        version; None is a lost race. */
    method Advance(cursor: Cursor, lastScope: string) returns (r: Option<Cursor>)
      modifies this
      ensures r.Some? <==> Matches(old(stored), cursor.version)
      ensures r.Some? ==> r.value.lastScope == Some(lastScope) && r.value == Load(stored)
      ensures r.None? ==> stored == old(stored)
    {
      var matches := match cursor.version
        case None => stored.None?
        case Some(v) => stored.Some? && stored.value.version == v;
      if !matches { return None; }
      stored := Some(Stored(lastScope, nextVersion));
      nextVersion := nextVersion + 1;
      r := Some(Cursor(Some(lastScope), Some(nextVersion - 1)));
    }
  }

  /** `RegisteredScopeSchedule`: the snapshot and cursor kept between cycles. */
  class RegisteredScopeSchedule {
    var names: seq<string>
    var cursor: Option<Cursor>

    constructor (names: seq<string>)
      ensures this.names == names && cursor.None?
    {
      this.names, cursor := names, None;
    }

    /** `schedule.cursor.take()`, or the durable cursor. */
    method TakeCursor(durable: CursorObject) returns (c: Cursor)
      modifies this`cursor
      ensures cursor.None?
      ensures c == if old(cursor).Some? then old(cursor).value else Load(durable.stored)
    {
      if cursor.Some? {
        c := cursor.value;
        cursor := None;
      } else {
        c := durable.LoadCursor();
      }
    }
  }

  /** What the batches left behind. */
  datatype Pass = Pass(cursor: Option<Cursor>, visited: seq<nat>, advanced: nat)

  /** The batch loop. From a cursor that is still current it visits the whole
      slice and leaves the cursor on its last scope; from a stale one it stops
      after the first batch with nothing written. */
  method RunBatches(durable: CursorObject, names: seq<string>, slice: seq<nat>, concurrency: nat, taken: Cursor,
                    ghost k: nat)
    returns (p: Pass)
    requires names != [] && concurrency > 0 && k > 0
    requires slice == FairSlice(|names|, StartIndex(names, taken.lastScope), k)
    modifies durable
    ensures Matches(old(durable.stored), taken.version) ==>
              && p.visited == slice && p.advanced == |slice|
              && p.cursor == Some(Load(durable.stored))
              && Load(durable.stored).lastScope == CursorAfter(names, taken.lastScope, |slice|)
    ensures !Matches(old(durable.stored), taken.version) ==>
              && durable.stored == old(durable.stored) && p.cursor.None? && p.advanced == 0
              && p.visited == slice[..Min(concurrency, |slice|)]
  {
    hide StartIndex, Around, FairSlice;
    var cursor := Some(taken);
    var visited: seq<nat> := [];
    var done := 0;
    while done < |slice|
      invariant done <= |slice| && cursor.Some? && visited == slice[..done]
      invariant cursor.value.lastScope == CursorAfter(names, taken.lastScope, done)
      invariant done == 0 ==> cursor == Some(taken) && durable.stored == old(durable.stored)
      invariant done > 0 ==> Matches(old(durable.stored), taken.version) && cursor.value == Load(durable.stored)
      decreases |slice| - done
    {
      var end := Min(done + concurrency, |slice|);
      var batch := slice[done..end];
      var last := names[batch[|batch| - 1]];
      visited := visited + batch;
      LastOfBatch(names, taken.lastScope, k, slice, end);
      var next := durable.Advance(cursor.value, last);
      if next.None? {
        return Pass(None, visited, done);
      }
      cursor := next;
      done := end;
    }
    p := Pass(cursor, visited, done);
  }

  lemma LastOfBatch(names: seq<string>, cursor: Option<string>, k: nat, slice: seq<nat>, end: nat)
    requires names != [] && slice == FairSlice(|names|, StartIndex(names, cursor), k) && 0 < end <= |slice|
    ensures slice[end - 1] < |names|
    ensures Some(names[slice[end - 1]]) == CursorAfter(names, cursor, end)
  {
  }

  /** `run_registered_scopes_cycle` over a non-empty snapshot. Undisturbed, it
      moves the schedule exactly as the race-free cycle does and reports exactly
      its sweep; from a stale cursor it writes nothing, reports nothing and keeps
      no cursor. */
  method RunCycle(schedule: RegisteredScopeSchedule, durable: CursorObject, scopesPerCycle: nat, concurrency: nat,
                  hot: seq<nat>, failed: bool)
    returns (swept: bool, visited: seq<nat>, rechecks: seq<nat>)
    requires schedule.names != [] && 1 <= concurrency <= scopesPerCycle
    requires |hot| <= HotBudget(scopesPerCycle, concurrency) && NoDup(hot)
    modifies schedule, durable
    ensures var taken := if old(schedule.cursor).Some? then old(schedule.cursor).value else Load(old(durable.stored));
            var names := old(schedule.names);
            var k := scopesPerCycle - |hot|;
            if Matches(old(durable.stored), taken.version) then
              && visited == FairSlice(|names|, StartIndex(names, taken.lastScope), k)
              && schedule.cursor == Some(Load(durable.stored))
              && Load(durable.stored).lastScope == NextSchedule(Schedule(names, taken.lastScope), k).cursor
              && swept == CycleReports(Schedule(names, taken.lastScope), k)
              && schedule.names == (if swept && !failed then [] else names)
            else
              && durable.stored == old(durable.stored) && schedule.cursor.None?
              && !swept && schedule.names == names
    ensures |visited| + |rechecks| <= scopesPerCycle && NoDup(rechecks + visited)
    ensures var taken := if old(schedule.cursor).Some? then old(schedule.cursor).value else Load(old(durable.stored));
            var names := old(schedule.names);
            forall h :: h in rechecks <==>
              h in hot && h !in FairSlice(|names|, StartIndex(names, taken.lastScope), scopesPerCycle - |hot|)
  {
    hide StartIndex, FairSlice, HotBudget, CursorAfter, CompletedScopeSweep, Registered, Outside;
    var names := schedule.names;
    var taken := schedule.TakeCursor(durable);
    var fair;
    fair, rechecks := PlanCycle(names, taken.lastScope, scopesPerCycle, concurrency, hot);
    var p := RunBatches(durable, names, fair, concurrency, taken, scopesPerCycle - |hot|);
    visited := p.visited;
    PrefixNoDup(rechecks, fair, visited);
    var ending := if p.advanced == 0 then taken.lastScope else Some(names[fair[p.advanced - 1]]);
    if p.advanced > 0 { LastOfBatch(names, taken.lastScope, scopesPerCycle - |hot|, fair, p.advanced); }
    var registered := Registered(names, taken.lastScope);
    swept := CompletedScopeSweep(p.advanced > 0, taken.lastScope, ending, Some(names[|names| - 1]), registered);
    NoProgressNoSweep(taken.lastScope, ending, Some(names[|names| - 1]), registered);
    schedule.cursor := p.cursor;
    if swept && !failed {
      schedule.names := [];
    }
  }

  lemma PrefixNoDup(a: seq<nat>, b: seq<nat>, visited: seq<nat>)
    requires NoDup(a + b) && visited <= b
    ensures NoDup(a + visited)
  {
    assert a + visited <= a + b;
  }

  lemma NoProgressNoSweep(start: Option<string>, end: Option<string>, final: Option<string>, registered: bool)
    ensures !CompletedScopeSweep(false, start, end, final, registered)
  {
  }

  /** The scopes of a batch, by name. */
  function BatchScopes(names: seq<string>, batch: seq<nat>): (r: seq<string>)
    requires forall p :: p in batch ==> p < |names|
    ensures |r| == |batch| && forall i :: 0 <= i < |r| ==> batch[i] < |names| && r[i] == names[batch[i]]
  {
    assert forall i :: 0 <= i < |batch| ==> batch[i] in batch;
    seq(|batch|, i requires 0 <= i < |batch| => names[batch[i]])
  }

  /** What a cycle plans has no scope twice, so neither has any of its batches,
      and no task of a batch uses a closed reader. */
  lemma PlannedBatchUsesOpen(names: seq<string>, plan: seq<nat>, batch: seq<nat>, lo: nat, maxOpen: nat)
    requires NoDup(names) && NoDup(plan) && forall p :: p in plan ==> p < |names|
    requires lo + |batch| <= |plan| && batch == plan[lo..lo + |batch|] && maxOpen > 0
    ensures forall p :: p in batch ==> p < |names|
    ensures NoDup(BatchScopes(names, batch)) && ScopeCacheResults.BatchUsesOpen(maxOpen, BatchScopes(names, batch))
  {
    assert forall i :: 0 <= i < |batch| ==> batch[i] == plan[lo + i] && plan[lo + i] in plan;
    var work := BatchScopes(names, batch);
    forall i, j | 0 <= i < j < |work| ensures work[i] != work[j] {
      assert plan[lo + i] != plan[lo + j];
    }
    ScopeCacheResults.BatchUsesOpenExactly(maxOpen, work);
  }
}
