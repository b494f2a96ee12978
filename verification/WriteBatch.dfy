/** Guarded write batches over a key-value store: all guards are read, then all
    operations are applied in order, in one transaction. */
module WriteBatch {
  import opened Basics
  import opened Binary

  type Key = string
  type Store = map<Key, Bytes>

  datatype WriteOp = Put(key: Key, value: Bytes) | Delete(key: Key)

  datatype WriteGuard = Absent(key: Key) | Equals(key: Key, expected: Bytes)

  /** `ConditionalWriteConflict` names the guard that failed. */
  datatype WriteOutcome = Committed(store: Store) | Conflict(key: Key)

  function ApplyOp(store: Store, op: WriteOp): Store {
    match op
    case Put(key, value) => store[key := value]
    case Delete(key) => store - {key}
  }

  function ApplyOps(store: Store, ops: seq<WriteOp>): Store {
    if ops == [] then store
    else ApplyOp(ApplyOps(store, ops[..|ops| - 1]), ops[|ops| - 1])
  }

  predicate Holds(store: Store, guard: WriteGuard) {
    match guard
    case Absent(key) => key !in store
    case Equals(key, expected) => key in store && store[key] == expected
  }

  /** Guard `i` fails and every earlier one holds. */
  predicate FailsFirst(store: Store, guards: seq<WriteGuard>, i: nat) {
    i < |guards| && !Holds(store, guards[i]) && forall j :: 0 <= j < i ==> Holds(store, guards[j])
  }

  function FirstConflict(store: Store, guards: seq<WriteGuard>): (r: Option<Key>)
    ensures r.None? <==> forall g :: g in guards ==> Holds(store, g)
    ensures r.Some? ==> exists i: nat :: FailsFirst(store, guards, i) && guards[i].key == r.value
  {
    if guards == [] then None
    else if !Holds(store, guards[0]) then assert FailsFirst(store, guards, 0); Some(guards[0].key)
    else
      var r := FirstConflict(store, guards[1..]);
      FailsLater(store, guards);
      r
  }

  lemma FailsLater(store: Store, guards: seq<WriteGuard>)
    requires guards != [] && Holds(store, guards[0])
    ensures forall i: nat :: FailsFirst(store, guards[1..], i) ==>
              FailsFirst(store, guards, i + 1) && guards[i + 1] == guards[1..][i]
    ensures (forall g :: g in guards[1..] ==> Holds(store, g)) ==> forall g :: g in guards ==> Holds(store, g)
  {
    forall i: nat | FailsFirst(store, guards[1..], i)
      ensures FailsFirst(store, guards, i + 1) && guards[i + 1] == guards[1..][i]
    {
      forall j | 0 <= j < i + 1 ensures Holds(store, guards[j]) {
        if j > 0 { assert guards[1..][j - 1] == guards[j]; }
      }
    }
    assert guards == [guards[0]] + guards[1..];
  }

  /** `write_graph_batch_strict_guarded`: an empty batch commits unread. */
  function GuardedWrite(store: Store, guards: seq<WriteGuard>, ops: seq<WriteOp>): WriteOutcome {
    if ops == [] then Committed(store)
    else
      match FirstConflict(store, guards)
      case Some(key) => Conflict(key)
      case None => Committed(ApplyOps(store, ops))
  }

  lemma OneGuardOneOp(store: Store, guard: WriteGuard, op: WriteOp)
    ensures ApplyOps(store, [op]) == ApplyOp(store, op)
    ensures GuardedWrite(store, [guard], [op])
         == if Holds(store, guard) then Committed(ApplyOp(store, op)) else Conflict(guard.key)
  {
    assert [op][..0] == [] && [guard][1..] == [];
    assert ApplyOps(store, []) == store && FirstConflict(store, []) == None;
  }

  lemma {:induction false} ApplyOpsConcat(store: Store, a: seq<WriteOp>, b: seq<WriteOp>)
    ensures ApplyOps(store, a + b) == ApplyOps(ApplyOps(store, a), b)
  {
    if b == [] {
      assert a + b == a;
    } else {
      var front, last := b[..|b| - 1], b[|b| - 1];
      ApplyOpsConcat(store, a, front);
      assert (a + b)[..|a + b| - 1] == a + front;
      assert (a + b)[|a + b| - 1] == last;
    }
  }

  /** The last operation on a key decides its value. */
  lemma {:induction false} UntouchedKey(store: Store, ops: seq<WriteOp>, key: Key)
    requires forall op :: op in ops ==> op.key != key
    ensures key in ApplyOps(store, ops) <==> key in store
    ensures key in store ==> ApplyOps(store, ops)[key] == store[key]
  {
    if ops != [] {
      UntouchedKey(store, ops[..|ops| - 1], key);
      assert ops[|ops| - 1] in ops;
    }
  }

  lemma DecidingOp(store: Store, before: seq<WriteOp>, op: WriteOp, after: seq<WriteOp>)
    requires forall o :: o in after ==> o.key != op.key
    ensures op.key in ApplyOps(store, before + [op] + after) <==> op.Put?
    ensures op.Put? ==> ApplyOps(store, before + [op] + after)[op.key] == op.value
  {
    ApplyOpsConcat(store, before + [op], after);
    var mid := ApplyOps(store, before + [op]);
    assert (before + [op])[..|before|] == before;
    UntouchedKey(mid, after, op.key);
  }

  class GraphWriteBatch {
    var ops: seq<WriteOp>

    constructor ()
      ensures ops == []
    {
      ops := [];
    }

    method Put(key: Key, value: Bytes)
      modifies this
      ensures ops == old(ops) + [WriteOp.Put(key, value)]
    {
      ops := ops + [WriteOp.Put(key, value)];
    }

    method Delete(key: Key)
      modifies this
      ensures ops == old(ops) + [WriteOp.Delete(key)]
    {
      ops := ops + [WriteOp.Delete(key)];
    }
  }

  /** One transaction: the guards in order, then the operations in order. */
  method CommitGuarded(store: Store, guards: seq<WriteGuard>, batch: GraphWriteBatch) returns (r: WriteOutcome)
    ensures r == GuardedWrite(store, guards, batch.ops)
    ensures r.Committed? <==> batch.ops == [] || forall g :: g in guards ==> Holds(store, g)
    ensures r.Committed? ==> r.store == ApplyOps(store, batch.ops)
    ensures r.Conflict? ==> exists i: nat :: FailsFirst(store, guards, i) && r.key == guards[i].key
  {
    if batch.ops == [] { return Committed(store); }
    for i := 0 to |guards|
      invariant FirstConflict(store, guards) == FirstConflict(store, guards[i..])
    {
      if !Holds(store, guards[i]) { return Conflict(guards[i].key); }
      assert guards[i..][1..] == guards[i + 1..];
    }
    var staged := store;
    for i := 0 to |batch.ops|
      invariant staged == ApplyOps(store, batch.ops[..i])
    {
      assert batch.ops[..i + 1][..i] == batch.ops[..i];
      staged := ApplyOp(staged, batch.ops[i]);
    }
    assert batch.ops[..|batch.ops|] == batch.ops;
    r := Committed(staged);
  }
}
